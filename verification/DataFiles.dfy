/** LAMMPS data files: what the writer writes and what the readers read back. */
module DataFiles {
  import opened Common
  import opened Strings

  // ---------------------------------------------------------------- writing LAMMPS data

  datatype AtomData = AtomData(id: int, mol: int, kind: int, charge: real, x: real, y: real, z: real)

  datatype BondData = BondData(id: int, kind: int, a: int, b: int)

  datatype Box = Box(xlo: real, xhi: real, ylo: real, yhi: real, zlo: real, zhi: real)

  // masses lists types with their masses in type order.
  datatype Topology = Topology(atoms: seq<AtomData>, bonds: seq<BondData>, box: Box, atomTypes: nat, bondTypes: nat,
                               masses: seq<(int, real)>)

  function TitleTail(ffName: string, ffVersion: string): string {
    " data file - " + "Generated by " + "TopologyGenerator" + " (" + ffName + " " + ffVersion + ")"
  }

  function Title(ffName: string, ffVersion: string): string {
    "LAMMPS" + TitleTail(ffName, ffVersion)
  }

  function AtomWords(a: AtomData): seq<string> {
    [IntString(a.id), IntString(a.mol), IntString(a.kind), Fixed(a.charge, 6), Fixed(a.x, 6), Fixed(a.y, 6),
     Fixed(a.z, 6)]
  }

  function BondWords(b: BondData): seq<string> {
    [IntString(b.id), IntString(b.kind), IntString(b.a), IntString(b.b)]
  }

  function MassWords(m: (int, real)): seq<string> {
    [IntString(m.0), Fixed(m.1, 4)]
  }

  function AtomLines(atoms: seq<AtomData>): (ls: seq<string>)
    ensures |ls| == |atoms|
  {
    seq(|atoms|, k requires 0 <= k < |atoms| => Line(AtomWords(atoms[k])))
  }

  function BondLines(bonds: seq<BondData>): (ls: seq<string>)
    ensures |ls| == |bonds|
  {
    seq(|bonds|, k requires 0 <= k < |bonds| => Line(BondWords(bonds[k])))
  }

  function MassLines(masses: seq<(int, real)>): (ls: seq<string>)
    ensures |ls| == |masses|
  {
    seq(|masses|, k requires 0 <= k < |masses| => Line(MassWords(masses[k])))
  }

  function Count(n: nat, what: seq<string>): string {
    Line([NatString(n)] + what)
  }

  function Counts(t: Topology): seq<string> {
    [Count(|t.atoms|, ["atoms"]), Count(|t.bonds|, ["bonds"]), "0 angles", "0 dihedrals", "0 impropers", "",
     Count(t.atomTypes, ["atom", "types"]), Count(Max(1, t.bondTypes), ["bond", "types"]), "0 angle types",
     "0 dihedral types", "0 improper types", ""]
  }

  // One line of box bounds.
  function BoundLine(lo: real, hi: real, c: char): string {
    Line([Fixed(lo, 6), Fixed(hi, 6), [c] + "lo", [c] + "hi"])
  }

  function BoxLines(b: Box): seq<string> {
    [BoundLine(b.xlo, b.xhi, 'x'), BoundLine(b.ylo, b.yhi, 'y'), BoundLine(b.zlo, b.zhi, 'z')]
  }

  // Everything above the atoms section.
  function Header(t: Topology, title: string): seq<string> {
    [title, ""] + Counts(t) + BoxLines(t.box) + ["", "Masses", ""] + MassLines(t.masses)
  }

  function BondSection(bonds: seq<BondData>): seq<string> {
    if bonds == [] then [] else ["", "Bonds", ""] + BondLines(bonds)
  }

  function DataLines(t: Topology, title: string): seq<string> {
    Header(t, title) + ["", "Atoms  # full", ""] + AtomLines(t.atoms) + BondSection(t.bonds)
  }

  method WriteLammpsData(t: Topology, ffName: string, ffVersion: string) returns (content: string)
    ensures content == Join(DataLines(t, Title(ffName, ffVersion)), '\n')
  {
    hide Line, AtomWords, BondWords, MassWords, Title, Counts, BoxLines;
    var lines := [Title(ffName, ffVersion), ""] + Counts(t) + BoxLines(t.box) + ["", "Masses", ""];
    ghost var start := lines;
    for i := 0 to |t.masses|
      invariant lines == start + MassLines(t.masses)[..i]
    {
      lines := lines + [Line(MassWords(t.masses[i]))];
    }
    assert lines == Header(t, Title(ffName, ffVersion));
    lines := lines + ["", "Atoms  # full", ""];
    ghost var middle := lines;
    for i := 0 to |t.atoms|
      invariant lines == middle + AtomLines(t.atoms)[..i]
    {
      lines := lines + [Line(AtomWords(t.atoms[i]))];
    }
    assert AtomLines(t.atoms)[..|t.atoms|] == AtomLines(t.atoms);
    if |t.bonds| > 0 {
      lines := lines + ["", "Bonds", ""];
      ghost var last := lines;
      for i := 0 to |t.bonds|
        invariant lines == last + BondLines(t.bonds)[..i]
      {
        lines := lines + [Line(BondWords(t.bonds[i]))];
      }
      assert BondLines(t.bonds)[..|t.bonds|] == BondLines(t.bonds);
    }
    assert lines == DataLines(t, Title(ffName, ffVersion));
    content := Join(lines, '\n');
  }

  // ---------------------------------------------------------------- reading the atoms back

  // What the validator keeps of an atom.
  datatype AtomRow = AtomRow(id: int, mol: int, x: real, y: real, z: real)

  predicate StartsWith(s: string, prefix: string) {
    prefix <= s
  }

  // A line of the atoms section that holds an atom.
  function ParseAtomLine(rd: Reader, line: string): Option<AtomRow> {
    var ws := Words(line);
    if |ws| < 7 then None
    else
      var id, mol := rd.readInt(ws[0]), rd.readInt(ws[1]);
      var x, y, z := rd.readFloat(ws[4]), rd.readFloat(ws[5]), rd.readFloat(ws[6]);
      if id.Some? && mol.Some? && x.Some? && y.Some? && z.Some?
      then Some(AtomRow(id.value, mol.value, x.value, y.value, z.value)) else None
  }

  // The line state machine: outside the section, in it before the first atom, in it after.
  function ReadLines(rd: Reader, lines: seq<string>, inSection: bool, found: bool): seq<AtomRow> {
    if lines == [] then []
    else
      var line, rest := Strip(lines[0]), lines[1..];
      if StartsWith(line, "Atoms") then ReadLines(rd, rest, true, found)
      else if !inSection then ReadLines(rd, rest, inSection, found)
      else if line == "" then (if found then [] else ReadLines(rd, rest, inSection, found))
      else if StartsWith(line, "Bonds") || StartsWith(line, "Velocities") then []
      else
        var row := ParseAtomLine(rd, line);
        if row.Some? then [row.value] + ReadLines(rd, rest, inSection, true) else ReadLines(rd, rest, inSection, found)
  }

  method ReadAtoms(rd: Reader, content: string) returns (atoms: seq<AtomRow>)
    ensures atoms == ReadLines(rd, Split(content, '\n'), false, false)
  {
    hide Split, ParseAtomLine, Strip;
    atoms := [];
    var inSection, found := false, false;
    var lines := Split(content, '\n');
    assert lines[0..] == lines;
    for i := 0 to |lines|
      invariant atoms + ReadLines(rd, lines[i..], inSection, found) == ReadLines(rd, lines, false, false)
    {
      assert lines[i..][1..] == lines[i + 1..];
      var line := Strip(lines[i]);
      if StartsWith(line, "Atoms") {
        inSection := true;
        continue;
      }
      if inSection {
        if line == "" {
          if found {
            break;
          }
          continue;
        }
        if StartsWith(line, "Bonds") || StartsWith(line, "Velocities") {
          break;
        }
        var row := ParseAtomLine(rd, line);
        if row.Some? {
          atoms := atoms + [row.value];
          found := true;
        }
      }
    }
  }

  // The row kept for a written atom: identifiers as they are, coordinates to six decimals.
  function RowOf(a: AtomData): AtomRow {
    AtomRow(a.id, a.mol, Rounded(a.x, 6), Rounded(a.y, 6), Rounded(a.z, 6))
  }

  function Rows(atoms: seq<AtomData>): (rows: seq<AtomRow>)
    ensures |rows| == |atoms|
  {
    seq(|atoms|, k requires 0 <= k < |atoms| => RowOf(atoms[k]))
  }

  // A line that is cut out of the file unchanged and does not open the atoms section.
  predicate Quiet(l: string) {
    IsTidy(l) && '\n' !in l && (l == "" || l[0] != 'A')
  }

  // A line without the characters that every box mark has.
  predicate Markless(l: string) {
    'h' !in l || 'o' !in l
  }

  predicate Dull(l: string) {
    Quiet(l) && Markless(l)
  }

  predicate AllDull(ls: seq<string>) {
    forall k :: 0 <= k < |ls| ==> Dull(ls[k])
  }

  lemma NumeralsDull(ws: seq<string>)
    requires ws != [] && forall k :: 0 <= k < |ws| ==> IsNumeral(ws[k])
    ensures Dull(Line(ws)) && forall k :: 0 <= k < |ws| ==> IsWord(ws[k])
  {
    forall k | 0 <= k < |ws| ensures IsWord(ws[k]) { NumeralIsWord(ws[k]); }
    LineFacts(ws);
    forall k | 0 <= k < |ws| ensures 'h' !in ws[k] { }
    JoinedWithout(ws, 'h');
    assert ws[0][0] in ws[0];
  }

  lemma {:induction false} JoinedWithout(ws: seq<string>, c: char)
    requires c != ' ' && forall k :: 0 <= k < |ws| ==> c !in ws[k]
    ensures c !in Line(ws)
  {
    if |ws| > 1 { JoinedWithout(ws[1..], c); }
  }

  lemma AtomLineFacts(a: AtomData)
    ensures Dull(Line(AtomWords(a))) && Line(AtomWords(a)) != ""
    ensures Line(AtomWords(a))[0] != 'B' && Line(AtomWords(a))[0] != 'V'
    ensures Words(Line(AtomWords(a))) == AtomWords(a)
  {
    hide IsNumeral, IsWord, Fixed, IntString, Dull, Words, Line;
    var ws := AtomWords(a);
    IntIsNumeral(a.id);
    IntIsNumeral(a.mol);
    IntIsNumeral(a.kind);
    FixedRoundTrip(a.charge, 6);
    FixedRoundTrip(a.x, 6);
    FixedRoundTrip(a.y, 6);
    FixedRoundTrip(a.z, 6);
    NumeralsDull(ws);
    LineFacts(ws);
    NumeralHead(ws[0]);
  }

  lemma AtomLineParses(rd: Reader, a: AtomData)
    requires rd.ReadsNumerals()
    ensures ParseAtomLine(rd, Line(AtomWords(a))) == Some(RowOf(a))
  {
    hide IsNumeral, Fixed, Rounded, IntString, ParseInt, ParseFloat, Dull, Words, Line, Strings.NeverStartsNumber;
    AtomLineFacts(a);
    IntRoundTrip(a.id);
    IntRoundTrip(a.mol);
    FixedRoundTrip(a.x, 6);
    FixedRoundTrip(a.y, 6);
    FixedRoundTrip(a.z, 6);
  }

  lemma NumeralHead(s: string)
    requires IsNumeral(s)
    ensures s[0] != 'B' && s[0] != 'V'
  {
    assert s[0] in s;
  }

  lemma BondLineFacts(b: BondData)
    ensures Dull(Line(BondWords(b)))
  {
    hide IsNumeral, IsWord, IntString, Dull, Line;
    IntIsNumeral(b.id);
    IntIsNumeral(b.kind);
    IntIsNumeral(b.a);
    IntIsNumeral(b.b);
    NumeralsDull(BondWords(b));
  }

  lemma MassLineFacts(m: (int, real))
    ensures Dull(Line(MassWords(m)))
  {
    hide IsNumeral, IsWord, IntString, Fixed, Dull, Line;
    IntIsNumeral(m.0);
    FixedIsWord(m.1, 4);
    NumeralsDull(MassWords(m));
  }

  lemma MassesDull(masses: seq<(int, real)>)
    ensures AllDull(MassLines(masses))
  {
    hide Dull, Line, MassWords;
    forall k | 0 <= k < |masses| ensures Dull(MassLines(masses)[k]) { MassLineFacts(masses[k]); }
  }

  lemma AtomsDull(atoms: seq<AtomData>)
    ensures AllDull(AtomLines(atoms))
  {
    hide Dull, Line, AtomWords, ParseAtomLine;
    forall k | 0 <= k < |atoms| ensures Dull(AtomLines(atoms)[k]) { AtomLineFacts(atoms[k]); }
  }

  lemma BondsDull(bonds: seq<BondData>)
    ensures AllDull(BondLines(bonds))
  {
    hide Dull, Line, BondWords;
    forall k | 0 <= k < |bonds| ensures Dull(BondLines(bonds)[k]) { BondLineFacts(bonds[k]); }
  }

  lemma CountLine(n: nat, what: seq<string>)
    requires forall k :: 0 <= k < |what| ==> IsWord(what[k]) && 'h' !in what[k]
    ensures Dull(Count(n, what))
  {
    hide IntString, NatString;
    var ws := [NatString(n)] + what;
    CountIsNumeral(n);
    assert 'h' !in ws[0] && ws[0][0] in ws[0];
    LineFacts(ws);
    JoinedWithout(ws, 'h');
  }

  lemma CountIsNumeral(n: nat)
    ensures IsNumeral(NatString(n)) && IsWord(NatString(n))
  {
    IntIsNumeral(n);
  }

  lemma CountsDull(t: Topology)
    ensures AllDull(Counts(t))
  {
    hide Dull, Count;
    CountLine(|t.atoms|, ["atoms"]);
    CountLine(|t.bonds|, ["bonds"]);
    CountLine(t.atomTypes, ["atom", "types"]);
    CountLine(Max(1, t.bondTypes), ["bond", "types"]);
    EmptySectionsDull();
    EmptyTypesDull();
  }

  lemma EmptySectionsDull()
    ensures Dull("") && Dull("0 angles") && Dull("0 dihedrals") && Dull("0 impropers")
  {
    assert Dull("0 angles");
    assert Dull("0 dihedrals");
    assert Dull("0 impropers");
  }

  lemma EmptyTypesDull()
    ensures Dull("0 angle types") && Dull("0 dihedral types") && Dull("0 improper types")
  {
    assert Dull("0 angle types") by { assert 'h' !in "0 angle types"; }
    DihedralTypesDull();
    assert Dull("0 improper types") by { assert 'h' !in "0 improper types"; }
  }

  lemma DihedralTypesDull()
    ensures Dull("0 dihedral types")
  {
  }

  lemma SectionNamesDull()
    ensures Dull("Masses") && Dull("Bonds")
    ensures Markless("Atoms  # full") && IsTidy("Atoms  # full") && '\n' !in "Atoms  # full"
  {
  }

  lemma BoundLineFacts(lo: real, hi: real, c: char)
    requires c in "xyz"
    ensures Quiet(BoundLine(lo, hi, c))
    ensures forall d :: d in "xyz" && d != c ==> d !in BoundLine(lo, hi, c)
    ensures Words(BoundLine(lo, hi, c)) == [Fixed(lo, 6), Fixed(hi, 6), [c] + "lo", [c] + "hi"]
  {
    hide Fixed, Words, Line;
    var ws := [Fixed(lo, 6), Fixed(hi, 6), [c] + "lo", [c] + "hi"];
    FixedIsWord(lo, 6);
    FixedIsWord(hi, 6);
    LineFacts(ws);
    assert ws[0][0] in ws[0];
    forall d | d in "xyz" && d != c ensures d !in BoundLine(lo, hi, c) {
      JoinedWithout(ws, d);
    }
  }

  lemma BoundLineParses(rd: Reader, lo: real, hi: real, c: char)
    requires rd.ReadsNumerals() && c in "xyz"
    ensures TwoFloats(rd, BoundLine(lo, hi, c)) == Some((Rounded(lo, 6), Rounded(hi, 6)))
  {
    hide Fixed, Rounded, ParseFloat, Words, Line, Quiet, Strings.NeverStartsNumber;
    BoundLineFacts(lo, hi, c);
    FixedRoundTrip(lo, 6);
    FixedRoundTrip(hi, 6);
  }

  lemma BoundLineMarked(lo: real, hi: real, c: char)
    ensures Contains(BoundLine(lo, hi, c), Mark(c))
  {
    hide Fixed, Contains;
    var u, v := Fixed(lo, 6), Fixed(hi, 6);
    LastTwo(u, v, [c] + "lo", [c] + "hi");
    var front := u + [' '] + v + [' '];
    assert ([c] + "lo") + [' '] + ([c] + "hi") == Mark(c);
    PartOf(front, Mark(c));
  }

  lemma LastTwo(a: string, b: string, c: string, d: string)
    ensures Line([a, b, c, d]) == (a + [' '] + b + [' ']) + (c + [' '] + d)
  {
    var ws := [a, b, c, d];
    assert ws[1..] == [b, c, d] && [b, c, d][1..] == [c, d] && [c, d][1..] == [d];
    assert Join([c, d], ' ') == c + [' '] + d;
    assert Join([b, c, d], ' ') == b + [' '] + (c + [' '] + d);
  }

  // ---------------------------------------------------------------- reading the box back

  function Mark(c: char): string {
    [c] + "lo " + [c] + "hi"
  }

  // float(parts[0]), float(parts[1])
  function TwoFloats(rd: Reader, line: string): Option<(real, real)> {
    var ws := Words(line);
    if |ws| < 2 then None
    else
      var lo, hi := rd.readFloat(ws[0]), rd.readFloat(ws[1]);
      if lo.Some? && hi.Some? then Some((lo.value, hi.value)) else None
  }

  // The bounds after one more line; None when a marked line does not start with two numbers.
  function ReadBound(rd: Reader, line: string, b: Box): Option<Box> {
    if Contains(line, "xlo xhi") then
      var p := TwoFloats(rd, line);
      if p.None? then None else Some(b.(xlo := p.value.0, xhi := p.value.1))
    else if Contains(line, "ylo yhi") then
      var p := TwoFloats(rd, line);
      if p.None? then None else Some(b.(ylo := p.value.0, yhi := p.value.1))
    else if Contains(line, "zlo zhi") then
      var p := TwoFloats(rd, line);
      if p.None? then None else Some(b.(zlo := p.value.0, zhi := p.value.1))
    else Some(b)
  }

  function ReadBox(rd: Reader, lines: seq<string>, b: Box): Option<Box> {
    if lines == [] then Some(b)
    else
      var next := ReadBound(rd, lines[0], b);
      if next.None? then None else ReadBox(rd, lines[1..], next.value)
  }

  function Volume(b: Box): real {
    (b.xhi - b.xlo) * (b.yhi - b.ylo) * (b.zhi - b.zlo)
  }

  function ZeroBox(): Box {
    Box(0.0, 0.0, 0.0, 0.0, 0.0, 0.0)
  }

  // None stands for the exception.
  method GetBoxVolume(rd: Reader, content: string) returns (volume: Option<real>)
    ensures var b := ReadBox(rd, Split(content, '\n'), ZeroBox());
      volume == if b.None? then None else Some(Volume(b.value))
  {
    hide Split, Contains, TwoFloats, Volume;
    var b := ZeroBox();
    var lines := Split(content, '\n');
    assert lines[0..] == lines;
    for i := 0 to |lines|
      invariant ReadBox(rd, lines[i..], b) == ReadBox(rd, lines, ZeroBox())
    {
      assert lines[i..][1..] == lines[i + 1..];
      var line := lines[i];
      if Contains(line, "xlo xhi") {
        var p := TwoFloats(rd, line);
        if p.None? {
          return None;
        }
        b := b.(xlo := p.value.0, xhi := p.value.1);
      } else if Contains(line, "ylo yhi") {
        var p := TwoFloats(rd, line);
        if p.None? {
          return None;
        }
        b := b.(ylo := p.value.0, yhi := p.value.1);
      } else if Contains(line, "zlo zhi") {
        var p := TwoFloats(rd, line);
        if p.None? {
          return None;
        }
        b := b.(zlo := p.value.0, zhi := p.value.1);
      }
    }
    volume := Some(Volume(b));
  }

  // ---------------------------------------------------------------- the file as lines

  predicate AllQuiet(ls: seq<string>) {
    forall k :: 0 <= k < |ls| ==> Quiet(ls[k])
  }

  predicate Unbroken(ls: seq<string>) {
    forall k :: 0 <= k < |ls| ==> '\n' !in ls[k]
  }

  lemma TitleEdges(ffName: string, ffVersion: string)
    ensures var title := Title(ffName, ffVersion);
      title != "" && IsTidy(title) && title[0] == 'L' && title[|title| - 1] == ')'
  {
    var tail := TitleTail(ffName, ffVersion);
    assert tail[|tail| - 1] == ')';
    assert "LAMMPS"[0] == 'L';
  }

  lemma TitleFacts(ffName: string, ffVersion: string)
    requires '\n' !in ffName && '\n' !in ffVersion
    ensures Quiet(Title(ffName, ffVersion))
  {
    hide IsTidy;
    assert '\n' !in "LAMMPS" && '\n' !in " data file - " && '\n' !in "Generated by ";
    assert '\n' !in "TopologyGenerator" && '\n' !in " (" && '\n' !in " " && '\n' !in ")";
    TitleEdges(ffName, ffVersion);
  }

  lemma BoxLinesQuiet(b: Box)
    ensures AllQuiet(BoxLines(b))
  {
    hide BoundLine, Quiet, TwoFloats;
    BoundLineFacts(b.xlo, b.xhi, 'x');
    BoundLineFacts(b.ylo, b.yhi, 'y');
    BoundLineFacts(b.zlo, b.zhi, 'z');
  }

  lemma HeaderQuiet(t: Topology, title: string)
    requires Quiet(title)
    ensures AllQuiet(Header(t, title))
  {
    hide Quiet, Markless, Counts, BoxLines, MassLines;
    EmptySectionsDull();
    SectionNamesDull();
    CountsDull(t);
    BoxLinesQuiet(t.box);
    MassesDull(t.masses);
  }

  lemma FileUnbroken(t: Topology, title: string)
    requires Quiet(title)
    ensures Split(Join(DataLines(t, title), '\n'), '\n') == DataLines(t, title)
  {
    hide IsTidy, Markless, Header, AtomLines, BondLines, Split, Join;
    HeaderQuiet(t, title);
    EmptySectionsDull();
    SectionNamesDull();
    AtomsDull(t.atoms);
    BondsDull(t.bonds);
    assert Unbroken(DataLines(t, title));
    SplitJoin(DataLines(t, title), '\n');
  }

  // ---------------------------------------------------------------- atoms: written, then read

  lemma {:induction false} QuietSkip(rd: Reader, ls: seq<string>, rest: seq<string>)
    requires AllQuiet(ls)
    ensures ReadLines(rd, ls + rest, false, false) == ReadLines(rd, rest, false, false)
  {
    hide ParseAtomLine, Strip;
    if ls == [] {
      assert ls + rest == rest;
    } else {
      QuietSkip(rd, ls[1..], rest);
      assert (ls + rest)[1..] == ls[1..] + rest;
      TidyStrip(ls[0]);
    }
  }

  lemma ReadAtomLine(rd: Reader, line: string, row: AtomRow, all: seq<string>, found: bool)
    requires Dull(line) && line != "" && line[0] != 'B' && line[0] != 'V' && ParseAtomLine(rd, line) == Some(row)
    requires all != [] && all[0] == line
    ensures ReadLines(rd, all, true, found) == [row] + ReadLines(rd, all[1..], true, true)
  {
    hide ParseAtomLine, Strip, IsTidy, Markless;
    TidyStrip(line);
  }

  lemma {:induction false} ReadAtomLines(rd: Reader, atoms: seq<AtomData>, rest: seq<string>, found: bool)
    requires rd.ReadsNumerals()
    ensures ReadLines(rd, AtomLines(atoms) + rest, true, found)
      == Rows(atoms) + ReadLines(rd, rest, true, found || atoms != [])
  {
    hide ParseAtomLine, ReadLines, Line, AtomWords, Dull, RowOf, Reader.ReadsNumerals;
    var all := AtomLines(atoms) + rest;
    if atoms == [] {
      assert all == rest;
    } else {
      ReadAtomLines(rd, atoms[1..], rest, true);
      assert all[1..] == AtomLines(atoms[1..]) + rest;
      assert Rows(atoms) == [RowOf(atoms[0])] + Rows(atoms[1..]);
      AtomLineFacts(atoms[0]);
      AtomLineParses(rd, atoms[0]);
      ReadAtomLine(rd, all[0], RowOf(atoms[0]), all, found);
    }
  }

  lemma AtomsEnd(rd: Reader, bonds: seq<BondData>, found: bool)
    ensures ReadLines(rd, BondSection(bonds), true, found) == []
  {
    hide ParseAtomLine, Strip, BondLines;
    if bonds != [] {
      var ls := BondSection(bonds);
      TidyStrip(ls[0]);
      TidyStrip(ls[1]);
      assert ls[1..][0] == "Bonds";
    }
  }

  /** Where the section ends: at a blank line after an atom, and at the next section. */
  lemma SectionEnds(rd: Reader, lines: seq<string>, found: bool)
    ensures found ==> ReadLines(rd, [""] + lines, true, found) == []
    ensures ReadLines(rd, ["Bonds"] + lines, true, found) == []
    ensures ReadLines(rd, ["Velocities"] + lines, true, found) == []
    ensures ReadLines(rd, ["Atoms"] + lines, false, found) == ReadLines(rd, lines, true, found)
  {
    hide ParseAtomLine;
    TidyStrip("");
    TidyStrip("Bonds");
    TidyStrip("Velocities");
    TidyStrip("Atoms");
    hide Strip;
  }

  /** Reading a written file restores the atoms, in order, with their coordinates to six decimals. */
  lemma AtomsReadBack(rd: Reader, t: Topology, ffName: string, ffVersion: string)
    requires rd.ReadsNumerals()
    requires '\n' !in ffName && '\n' !in ffVersion
    ensures ReadLines(rd, Split(Join(DataLines(t, Title(ffName, ffVersion)), '\n'), '\n'), false, false)
      == Rows(t.atoms)
  {
    hide Header, BondSection, Strip, ParseAtomLine, Quiet, Split, Join, Title, AtomLines, Rows, Reader.ReadsNumerals;
    var title := Title(ffName, ffVersion);
    TitleFacts(ffName, ffVersion);
    FileUnbroken(t, title);
    HeaderQuiet(t, title);
    var section := ["Atoms  # full", ""] + AtomLines(t.atoms) + BondSection(t.bonds);
    QuietSkip(rd, Header(t, title) + [""], section) by { EmptySectionsDull(); }
    assert DataLines(t, title) == (Header(t, title) + [""]) + section;
    OpenSection(rd, AtomLines(t.atoms) + BondSection(t.bonds), section);
    ReadAtomLines(rd, t.atoms, BondSection(t.bonds), false);
    AtomsEnd(rd, t.bonds, t.atoms != []);
  }

  lemma OpenSection(rd: Reader, rest: seq<string>, section: seq<string>)
    requires section == ["Atoms  # full", ""] + rest
    ensures ReadLines(rd, section, false, false) == ReadLines(rd, rest, true, false)
  {
    hide ParseAtomLine, Strip;
    SectionNamesDull();
    TidyStrip("Atoms  # full");
    TidyStrip("");
    assert section[1..] == [""] + rest;
    assert section[1..][1..] == rest;
    assert StartsWith("Atoms  # full", "Atoms");
  }

  // ---------------------------------------------------------------- box: written, then read

  function RoundedBox(b: Box): Box {
    Box(Rounded(b.xlo, 6), Rounded(b.xhi, 6), Rounded(b.ylo, 6), Rounded(b.yhi, 6), Rounded(b.zlo, 6),
        Rounded(b.zhi, 6))
  }

  predicate Marked(line: string) {
    Contains(line, "xlo xhi") || Contains(line, "ylo yhi") || Contains(line, "zlo zhi")
  }

  predicate AllMarkless(ls: seq<string>) {
    forall k :: 0 <= k < |ls| ==> Markless(ls[k])
  }

  lemma MarklessUnmarked(line: string)
    requires Markless(line)
    ensures !Marked(line)
  {
    hide Contains;
    if c: char :| c in "xyz" && Contains(line, Mark(c)) {
      assert Mark(c)[2] == 'o' && Mark(c)[5] == 'h';
      PartChars(line, Mark(c), 'o');
      PartChars(line, Mark(c), 'h');
      assert false;
    }
    MarksAre();
  }

  lemma MarksAre()
    ensures Mark('x') == "xlo xhi" && Mark('y') == "ylo yhi" && Mark('z') == "zlo zhi"
    ensures 'x' in "xyz" && 'y' in "xyz" && 'z' in "xyz"
  {
    assert "xyz"[0] == 'x' && "xyz"[1] == 'y' && "xyz"[2] == 'z';
  }

  lemma {:induction false} MarklessSkip(rd: Reader, ls: seq<string>, rest: seq<string>, b: Box)
    requires AllMarkless(ls)
    ensures ReadBox(rd, ls + rest, b) == ReadBox(rd, rest, b)
  {
    hide Markless, TwoFloats, Contains;
    if ls == [] {
      assert ls + rest == rest;
    } else {
      MarklessUnmarked(ls[0]);
      MarklessSkip(rd, ls[1..], rest, b);
      assert (ls + rest)[1..] == ls[1..] + rest;
    }
  }

  /** Bounds that no line names are zero: a file without marks has the volume 0. */
  lemma NoMarksNoVolume(rd: Reader, content: string)
    requires AllMarkless(Split(content, '\n'))
    ensures ReadBox(rd, Split(content, '\n'), ZeroBox()) == Some(Box(0.0, 0.0, 0.0, 0.0, 0.0, 0.0))
    ensures Volume(Box(0.0, 0.0, 0.0, 0.0, 0.0, 0.0)) == 0.0
  {
    hide Split, AllMarkless;
    var lines := Split(content, '\n');
    MarklessSkip(rd, lines, [], ZeroBox());
    assert lines + [] == lines;
  }

  lemma ReadBoundLine(rd: Reader, lo: real, hi: real, c: char, b: Box)
    requires rd.ReadsNumerals()
    requires c in "xyz"
    ensures ReadBound(rd, BoundLine(lo, hi, c), b) == Some(
      if c == 'x' then b.(xlo := Rounded(lo, 6), xhi := Rounded(hi, 6))
      else if c == 'y' then b.(ylo := Rounded(lo, 6), yhi := Rounded(hi, 6))
      else b.(zlo := Rounded(lo, 6), zhi := Rounded(hi, 6)))
  {
    hide Contains, TwoFloats, BoundLine, Rounded, Quiet;
    var line := BoundLine(lo, hi, c);
    BoundLineFacts(lo, hi, c);
    BoundLineParses(rd, lo, hi, c);
    BoundLineMarked(lo, hi, c);
    MarksAre();
    if c != 'x' && Contains(line, "xlo xhi") {
      PartChars(line, "xlo xhi", 'x') by { assert "xlo xhi"[0] == 'x'; }
      assert false;
    }
    if c != 'y' && Contains(line, "ylo yhi") {
      PartChars(line, "ylo yhi", 'y') by { assert "ylo yhi"[0] == 'y'; }
      assert false;
    }
    assert c == 'x' || c == 'y' || c == 'z';
  }

  lemma ReadBoxLines(rd: Reader, t: Box, rest: seq<string>)
    requires rd.ReadsNumerals()
    ensures ReadBox(rd, BoxLines(t) + rest, ZeroBox()) == ReadBox(rd, rest, RoundedBox(t))
  {
    hide BoundLine, Rounded, ReadBound, TwoFloats, Reader.ReadsNumerals;
    MarksAre();
    ReadBoundLine(rd, t.xlo, t.xhi, 'x', ZeroBox());
    var b1 := ZeroBox().(xlo := Rounded(t.xlo, 6), xhi := Rounded(t.xhi, 6));
    ReadBoundLine(rd, t.ylo, t.yhi, 'y', b1);
    var b2 := b1.(ylo := Rounded(t.ylo, 6), yhi := Rounded(t.yhi, 6));
    ReadBoundLine(rd, t.zlo, t.zhi, 'z', b2);
    var all := BoxLines(t) + rest;
    assert all == [BoundLine(t.xlo, t.xhi, 'x')]
        + ([BoundLine(t.ylo, t.yhi, 'y')] + ([BoundLine(t.zlo, t.zhi, 'z')] + rest));
    OneBound(rd, BoundLine(t.xlo, t.xhi, 'x'), all[1..], ZeroBox(), b1);
    OneBound(rd, BoundLine(t.ylo, t.yhi, 'y'), all[2..], b1, b2);
    OneBound(rd, BoundLine(t.zlo, t.zhi, 'z'), rest, b2, RoundedBox(t));
  }

  lemma OneBound(rd: Reader, line: string, rest: seq<string>, b: Box, next: Box)
    requires ReadBound(rd, line, b) == Some(next)
    ensures ReadBox(rd, [line] + rest, b) == ReadBox(rd, rest, next)
  {
    hide ReadBound;
    assert ([line] + rest)[1..] == rest;
  }

  /** A title that contains a box mark makes reading the box fail. */
  lemma MarkedTitle(rd: Reader, ffName: string, ffVersion: string, b: Box)
    requires rd.ReadsNumerals()
    requires Marked(Title(ffName, ffVersion))
    ensures ReadBound(rd, Title(ffName, ffVersion), b) == None
  {
    hide Contains, Words, TitleTail, ParseFloat, IsWord;
    var tail := TitleTail(ffName, ffVersion);
    TailStarts(ffName, ffVersion);
    LammpsIsNoNumber(rd);
    FirstWord("LAMMPS", tail);
  }

  lemma LammpsIsNoNumber(rd: Reader)
    requires rd.ReadsNumerals()
    ensures IsWord("LAMMPS") && rd.readFloat("LAMMPS") == None
  {
    hide ParseInt, ParseFloat;
    assert "LAMMPS"[0] == 'L';
  }

  lemma TailStarts(ffName: string, ffVersion: string)
    ensures TitleTail(ffName, ffVersion) != "" && TitleTail(ffName, ffVersion)[0] == ' '
  {
    assert " data file - "[0] == ' ';
  }

  /** Reading the box of a written file gives the bounds to six decimals, unless the title holds one of the marks. */
  lemma BoxReadBack(rd: Reader, t: Topology, ffName: string, ffVersion: string)
    requires rd.ReadsNumerals()
    requires '\n' !in ffName && '\n' !in ffVersion
    ensures ReadBox(rd, Split(Join(DataLines(t, Title(ffName, ffVersion)), '\n'), '\n'), ZeroBox())
         == if Marked(Title(ffName, ffVersion)) then None else Some(RoundedBox(t.box))
  {
    hide Quiet, Marked, Split, Join, Title, AtomLines, MassLines, BondLines, ReadBound, BoxLines, Counts, RoundedBox,
        Markless, Reader.ReadsNumerals;
    var title := Title(ffName, ffVersion);
    TitleFacts(ffName, ffVersion);
    FileUnbroken(t, title);
    var above, below := [""] + Counts(t), LinesBelow(t);
    LinesSplit(t, title);
    hide DataLines, LinesBelow, ReadBox;
    if Marked(title) {
      MarkedTitle(rd, ffName, ffVersion, ZeroBox());
      FailsAtOnce(rd, title, above + (BoxLines(t.box) + below), ZeroBox());
    } else {
      PlainTitle(rd, title);
      OneBound(rd, title, above + (BoxLines(t.box) + below), ZeroBox(), ZeroBox());
      ReadUnderTitle(rd, t);
    }
  }

  /** The volume of a written file: the product of the edges, to six decimals. */
  lemma VolumeReadBack(rd: Reader, t: Topology, ffName: string, ffVersion: string)
    requires rd.ReadsNumerals() && !Marked(Title(ffName, ffVersion))
    requires '\n' !in ffName && '\n' !in ffVersion
    ensures var b := ReadBox(rd, Split(Join(DataLines(t, Title(ffName, ffVersion)), '\n'), '\n'), ZeroBox());
      && b.Some?
      && Volume(b.value)
        == (Rounded(t.box.xhi, 6) - Rounded(t.box.xlo, 6)) * (Rounded(t.box.yhi, 6) - Rounded(t.box.ylo, 6))
           * (Rounded(t.box.zhi, 6) - Rounded(t.box.zlo, 6))
  {
    hide *;
    BoxReadBack(rd, t, ffName, ffVersion);
    RoundedVolume(t.box);
  }

  lemma RoundedVolume(b: Box)
    ensures Volume(RoundedBox(b)) == (Rounded(b.xhi, 6) - Rounded(b.xlo, 6)) * (Rounded(b.yhi, 6) - Rounded(b.ylo, 6))
                                     * (Rounded(b.zhi, 6) - Rounded(b.zlo, 6))
  {
    hide Rounded;
  }

  lemma LinesSplit(t: Topology, title: string)
    ensures DataLines(t, title) == [title] + ([""] + Counts(t) + (BoxLines(t.box) + LinesBelow(t)))
  {
    hide AtomLines, MassLines, BondSection, BoxLines, Counts;
  }

  lemma FailsAtOnce(rd: Reader, line: string, rest: seq<string>, b: Box)
    requires ReadBound(rd, line, b) == None
    ensures ReadBox(rd, [line] + rest, b) == None
  {
    hide ReadBound;
  }

  lemma ReadUnderTitle(rd: Reader, t: Topology)
    requires rd.ReadsNumerals()
    ensures ReadBox(rd, [""] + Counts(t) + (BoxLines(t.box) + LinesBelow(t)), ZeroBox()) == Some(RoundedBox(t.box))
  {
    hide Quiet, AtomLines, MassLines, BondLines, ReadBound, BoxLines, Counts, RoundedBox, Markless, LinesBelow,
        Reader.ReadsNumerals;
    var below := LinesBelow(t);
    CountsDull(t);
    EmptySectionsDull();
    MarklessSkip(rd, [""] + Counts(t), BoxLines(t.box) + below, ZeroBox());
    ReadBoxLines(rd, t.box, below);
    BelowMarkless(t);
    MarklessSkip(rd, below, [], RoundedBox(t.box));
    assert below + [] == below;
  }

  lemma PlainTitle(rd: Reader, title: string)
    requires !Marked(title)
    ensures ReadBound(rd, title, ZeroBox()) == Some(ZeroBox())
  {
    hide Contains;
  }

  // Everything below the box bounds.
  function LinesBelow(t: Topology): seq<string> {
    ["", "Masses", ""] + MassLines(t.masses) + ["", "Atoms  # full", ""] + AtomLines(t.atoms) + BondSection(t.bonds)
  }

  lemma BelowMarkless(t: Topology)
    ensures AllMarkless(LinesBelow(t))
  {
    hide Quiet, Markless, AtomLines, MassLines, BondLines;
    EmptySectionsDull();
    SectionNamesDull();
    MassesDull(t.masses);
    AtomsDull(t.atoms);
    BondsDull(t.bonds);
    assert AllMarkless(MassLines(t.masses)) && AllMarkless(AtomLines(t.atoms));
    assert AllMarkless(BondLines(t.bonds));
    assert AllMarkless(BondSection(t.bonds));
    assert AllMarkless(["", "Masses", ""] + MassLines(t.masses) + ["", "Atoms  # full", ""]);
  }

  // ---------------------------------------------------------------- atom count: written, then read

  // What the pattern takes for a digit and for white space, and the number that a run of digits stands for. Other
  // alphabets have digits and spaces too.
  datatype Alphabet = Alphabet(digit: char -> bool, space: char -> bool, value: string -> nat)
  {
    ghost predicate WellFormed() {
      && (forall c :: IsDigit(c) ==> digit(c)) && (forall c :: IsSpace(c) ==> space(c))
      && (forall c :: !(digit(c) && space(c)))
      && !digit(')') && !space(')') && !space('a')
      && (forall s :: AllDigits(s) && s != "" ==> value(s) == NatValue(s))
    }
  }

  // The length of the longest run at the start of s.
  function RunOf(f: char -> bool, s: string): (n: nat)
    ensures n <= |s| && (forall k :: 0 <= k < n ==> f(s[k]))
    ensures n < |s| ==> !f(s[n])
  {
    if s == "" || !f(s[0]) then 0 else 1 + RunOf(f, s[1..])
  }

  // The pattern (\d+)\s+atoms matches at the start of s with n digits and m spaces.
  predicate Matches(abc: Alphabet, s: string, n: nat, m: nat) {
    && 0 < n && 0 < m && n + m <= |s|
    && (forall k :: 0 <= k < n ==> abc.digit(s[k])) && (forall k :: n <= k < n + m ==> abc.space(s[k]))
    && "atoms" <= s[n + m..]
  }

  // The number the pattern captures at the start of s.
  function MatchAt(abc: Alphabet, s: string): Option<nat> {
    var n := RunOf(abc.digit, s);
    var m := RunOf(abc.space, s[n..]);
    if n > 0 && m > 0 && "atoms" <= s[n + m..] then Some(abc.value(s[..n])) else None
  }

  // re.search: the match that starts furthest to the left.
  function Search(abc: Alphabet, s: string): Option<nat> {
    var here := MatchAt(abc, s);
    if here.Some? || s == "" then here else Search(abc, s[1..])
  }

  function GetAtomCount(abc: Alphabet, content: string): nat {
    var found := Search(abc, content);
    if found.Some? then found.value else 0
  }

  lemma EmptyNoMatch(abc: Alphabet)
    ensures MatchAt(abc, []).None?
  {
  }

  /** The count is that of the first place where the pattern matches, and 0 when it matches nowhere. */
  lemma {:induction false} CountOfFirstMatch(abc: Alphabet, content: string, i: nat)
    requires i <= |content| && forall j :: 0 <= j < i ==> MatchAt(abc, content[j..]).None?
    ensures MatchAt(abc, content[i..]).Some? ==> GetAtomCount(abc, content) == MatchAt(abc, content[i..]).value
    ensures i == |content| ==> GetAtomCount(abc, content) == 0
  {
    EmptyNoMatch(abc);
    hide MatchAt;
    assert content[0..] == content;
    if i > 0 {
      forall j | 0 <= j < i - 1
        ensures MatchAt(abc, content[1..][j..]).None?
      {
        assert content[1..][j..] == content[j + 1..];
      }
      assert content[1..][i - 1..] == content[i..];
      CountOfFirstMatch(abc, content[1..], i - 1);
      assert MatchAt(abc, content[0..]).None?;
    } else if content == [] {
      assert content[i..] == [];
    }
  }

  /** There is only one way for the pattern to match at a place, and MatchAt finds it. */
  lemma MatchIsUnique(abc: Alphabet, s: string, n: nat, m: nat)
    requires abc.WellFormed() && Matches(abc, s, n, m)
    ensures MatchAt(abc, s) == Some(abc.value(s[..n]))
  {
    hide NatValue;
    assert abc.space(s[n]) && !abc.digit(s[n]);
    var d := RunOf(abc.digit, s);
    assert d == n;
    var rest := s[n..];
    var e := RunOf(abc.space, rest);
    assert s[n + m] == "atoms"[0];
    assert forall k :: 0 <= k < |rest| ==> rest[k] == s[n + k];
    assert e == m;
  }

  lemma MatchHolds(abc: Alphabet, s: string)
    requires MatchAt(abc, s).Some?
    ensures Matches(abc, s, RunOf(abc.digit, s), RunOf(abc.space, s[RunOf(abc.digit, s)..]))
  {
    hide NatValue;
    var n := RunOf(abc.digit, s);
    forall k | n <= k < n + RunOf(abc.space, s[n..]) ensures abc.space(s[k]) { assert s[n..][k - n] == s[k]; }
  }

  /** A match inside a text that ends in a parenthesis neither needs nor gains anything from what follows the text. */
  lemma MatchPast(abc: Alphabet, s: string, t: string)
    requires abc.WellFormed() && s != "" && s[|s| - 1] == ')'
    ensures MatchAt(abc, s + t) == MatchAt(abc, s)
  {
    hide NatValue, Alphabet.WellFormed, MatchAt, Matches, RunOf;
    if MatchAt(abc, s).Some? {
      MatchHolds(abc, s);
      var n, m := RunOf(abc.digit, s), RunOf(abc.space, s[RunOf(abc.digit, s)..]);
      MatchExtends(abc, s, t, n, m);
      SameMatch(abc, s, t, n, m);
    } else if MatchAt(abc, s + t).Some? {
      MatchHolds(abc, s + t);
      var n, m := RunOf(abc.digit, s + t), RunOf(abc.space, (s + t)[RunOf(abc.digit, s + t)..]);
      MatchEnds(abc, s, t, n, m);
      SameMatch(abc, s, t, n, m);
    }
  }

  lemma SameMatch(abc: Alphabet, s: string, t: string, n: nat, m: nat)
    requires abc.WellFormed() && Matches(abc, s, n, m) && Matches(abc, s + t, n, m)
    ensures MatchAt(abc, s + t) == MatchAt(abc, s)
  {
    hide Alphabet.WellFormed, MatchAt;
    MatchIsUnique(abc, s, n, m);
    MatchIsUnique(abc, s + t, n, m);
    assert (s + t)[..n] == s[..n];
  }

  lemma MatchExtends(abc: Alphabet, s: string, t: string, n: nat, m: nat)
    requires Matches(abc, s, n, m)
    ensures Matches(abc, s + t, n, m)
  {
    assert (s + t)[n + m..] == s[n + m..] + t;
  }

  lemma MatchEnds(abc: Alphabet, s: string, t: string, n: nat, m: nat)
    requires abc.WellFormed() && s != "" && s[|s| - 1] == ')' && Matches(abc, s + t, n, m)
    ensures Matches(abc, s, n, m)
  {
    var u, z := s + t, |s| - 1;
    assert u[z] == ')';
    assert z >= n + m;
    var rest := u[n + m..];
    assert rest[z - n - m] == ')';
    assert forall k :: 0 <= k < 5 ==> rest[k] == "atoms"[k] && rest[k] != ')';
    assert s[..n] == u[..n];
    assert forall k :: 0 <= k < |s| ==> s[k] == u[k];
  }

  lemma {:induction false} SearchPast(abc: Alphabet, s: string, t: string)
    requires abc.WellFormed() && s != "" && s[|s| - 1] == ')'
    ensures Search(abc, s + t) == if Search(abc, s).Some? then Search(abc, s) else Search(abc, t)
  {
    hide MatchAt;
    MatchPast(abc, s, t);
    if |s| == 1 {
      assert (s + t)[1..] == t && s[1..] == "";
      assert MatchAt(abc, "") == None by { NoEmptyMatch(abc); }
    } else {
      SearchPast(abc, s[1..], t);
      assert (s + t)[1..] == s[1..] + t;
    }
  }

  lemma NoEmptyMatch(abc: Alphabet)
    ensures MatchAt(abc, "") == None
  {
  }

  lemma PairLine(a: string, b: string)
    ensures Line([a] + [b]) == a + [' '] + b
  {
    assert ([a] + [b])[1..] == [b];
    assert Join([b], ' ') == b;
  }

  lemma SearchCount(abc: Alphabet, n: nat, rest: string)
    requires abc.WellFormed()
    ensures Search(abc, Count(n, ["atoms"]) + rest) == Some(n)
  {
    hide NatString, NatValue;
    var d := NatString(n);
    assert Count(n, ["atoms"]) == d + [' '] + "atoms" by { PairLine(d, "atoms"); }
    var s := Count(n, ["atoms"]) + rest;
    assert s[..|d|] == d && s[|d| + 1..] == "atoms" + rest;
    MatchIsUnique(abc, s, |d|, 1);
    NatRoundTrip(n);
  }

  lemma SkipBreak(abc: Alphabet, s: string)
    requires abc.WellFormed()
    ensures Search(abc, "\n" + s) == Search(abc, s)
  {
    assert ("\n" + s)[1..] == s;
    assert MatchAt(abc, "\n" + s) == None;
  }

  /** The count read from a written file is the number of atoms, unless the title itself matches the pattern: then it is
      the number found in the title. */
  lemma AtomCountReadBack(abc: Alphabet, t: Topology, ffName: string, ffVersion: string)
    requires abc.WellFormed()
    ensures var inTitle := Search(abc, Title(ffName, ffVersion));
      GetAtomCount(abc, Join(DataLines(t, Title(ffName, ffVersion)), '\n'))
        == if inTitle.Some? then inTitle.value else |t.atoms|
  {
    hide Search, Count, Title, MassLines, BoxLines, AtomLines, BondSection;
    var title, n := Title(ffName, ffVersion), Count(|t.atoms|, ["atoms"]);
    var lines := DataLines(t, title);
    var more := lines[3..];
    assert lines == [title] + ([""] + ([n] + more)) && more != [];
    var rest := "\n" + Join(more, '\n');
    JoinHead(n, more);
    JoinHead("", [n] + more);
    JoinHead(title, [""] + ([n] + more));
    assert Join(lines, '\n') == title + ("\n" + ("\n" + (n + rest)));
    TitleEdges(ffName, ffVersion);
    SearchPast(abc, title, "\n" + ("\n" + (n + rest)));
    SkipBreak(abc, "\n" + (n + rest));
    SkipBreak(abc, n + rest);
    SearchCount(abc, |t.atoms|, rest);
  }

  lemma JoinHead(first: string, more: seq<string>)
    requires more != []
    ensures Join([first] + more, '\n') == first + ("\n" + Join(more, '\n'))
  {
    assert ([first] + more)[1..] == more;
  }
}
