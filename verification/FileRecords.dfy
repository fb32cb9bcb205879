/** A written data file, line by line: every number in it reads back as what the topology holds. */
module FileRecords {
  import opened Common
  import opened Strings
  import opened DataFiles

  // ---------------------------------------------------------------- what a line says

  predicate SaysCount(rd: Reader, line: string, n: nat, what: seq<string>) {
    var ws := Words(line);
    |ws| == 1 + |what| && rd.readInt(ws[0]) == Some(n) && ws[1..] == what
  }

  predicate SaysBounds(rd: Reader, line: string, lo: real, hi: real, names: seq<string>) {
    var ws := Words(line);
    && |ws| == 2 + |names| && ws[2..] == names
    && rd.readFloat(ws[0]) == Some(Rounded(lo, 6)) && rd.readFloat(ws[1]) == Some(Rounded(hi, 6))
  }

  predicate SaysMass(rd: Reader, line: string, kind: int, mass: real) {
    var ws := Words(line);
    |ws| == 2 && rd.readInt(ws[0]) == Some(kind) && rd.readFloat(ws[1]) == Some(Rounded(mass, 4))
  }

  predicate SaysAtom(rd: Reader, line: string, a: AtomData) {
    var ws := Words(line);
    && |ws| == 7
    && rd.readInt(ws[0]) == Some(a.id) && rd.readInt(ws[1]) == Some(a.mol) && rd.readInt(ws[2]) == Some(a.kind)
    && rd.readFloat(ws[3]) == Some(Rounded(a.charge, 6))
    && rd.readFloat(ws[4]) == Some(Rounded(a.x, 6)) && rd.readFloat(ws[5]) == Some(Rounded(a.y, 6))
    && rd.readFloat(ws[6]) == Some(Rounded(a.z, 6))
  }

  predicate SaysBond(rd: Reader, line: string, b: BondData) {
    var ws := Words(line);
    && |ws| == 4
    && rd.readInt(ws[0]) == Some(b.id) && rd.readInt(ws[1]) == Some(b.kind)
    && rd.readInt(ws[2]) == Some(b.a) && rd.readInt(ws[3]) == Some(b.b)
  }

  // ---------------------------------------------------------------- the lines of the file

  // What stands above the masses in any file.
  predicate HasFrame(lines: seq<string>)
    requires |lines| >= 20
  {
    && lines[1] == lines[7] == lines[13] == lines[17] == lines[19] == "" && lines[18] == "Masses"
    && lines[4] == "0 angles" && lines[5] == "0 dihedrals" && lines[6] == "0 impropers"
    && lines[10] == "0 angle types" && lines[11] == "0 dihedral types" && lines[12] == "0 improper types"
  }

  predicate HasCounts(rd: Reader, lines: seq<string>, t: Topology)
    requires |lines| >= 20
  {
    && SaysCount(rd, lines[2], |t.atoms|, ["atoms"]) && SaysCount(rd, lines[3], |t.bonds|, ["bonds"])
    && SaysCount(rd, lines[8], t.atomTypes, ["atom", "types"])
    && SaysCount(rd, lines[9], if t.bondTypes == 0 then 1 else t.bondTypes, ["bond", "types"])
  }

  predicate HasBox(rd: Reader, lines: seq<string>, b: Box)
    requires |lines| >= 20
  {
    && SaysBounds(rd, lines[14], b.xlo, b.xhi, ["xlo", "xhi"])
    && SaysBounds(rd, lines[15], b.ylo, b.yhi, ["ylo", "yhi"])
    && SaysBounds(rd, lines[16], b.zlo, b.zhi, ["zlo", "zhi"])
  }

  /** Counts and box, in twenty lines that always have the same place. */
  ghost predicate IsHead(rd: Reader, lines: seq<string>, t: Topology)
    requires |lines| >= 20
  {
    HasFrame(lines) && HasCounts(rd, lines, t) && HasBox(rd, lines, t.box)
  }

  /** The masses, atoms and bonds, one a line and in order; the bond section is left out without bonds. */
  ghost predicate IsBody(rd: Reader, lines: seq<string>, t: Topology) {
    var masses, atoms, bonds := |t.masses|, |t.atoms|, |t.bonds|;
    && |lines| == 23 + masses + atoms + (if bonds == 0 then 0 else 3 + bonds)
    && (forall k :: 0 <= k < masses ==> SaysMass(rd, lines[20 + k], t.masses[k].0, t.masses[k].1))
    && lines[20 + masses..23 + masses] == ["", "Atoms  # full", ""]
    && (forall k :: 0 <= k < atoms ==> SaysAtom(rd, lines[23 + masses + k], t.atoms[k]))
    && (bonds != 0 ==> lines[23 + masses + atoms..26 + masses + atoms] == ["", "Bonds", ""])
    && forall k :: 0 <= k < bonds ==> SaysBond(rd, lines[26 + masses + atoms + k], t.bonds[k])
  }

  // ---------------------------------------------------------------- each line

  lemma CountSays(rd: Reader, n: nat, what: seq<string>)
    requires rd.ReadsNumerals() && forall k :: 0 <= k < |what| ==> IsWord(what[k])
    ensures SaysCount(rd, Count(n, what), n, what)
  {
    hide Words, Line, ParseFloat, Strings.NeverStartsNumber, IsWord, NatString, IsNumeral;
    CountIsNumeral(n);
    LineFacts([NatString(n)] + what);
    IntRoundTrip(n);
    assert IntString(n) == NatString(n);
    hide IntString, ParseInt;
  }

  lemma BoundsSay(rd: Reader, lo: real, hi: real, c: char)
    requires rd.ReadsNumerals() && c in "xyz"
    ensures SaysBounds(rd, BoundLine(lo, hi, c), lo, hi, [[c] + "lo", [c] + "hi"])
  {
    hide Fixed, Rounded, ParseFloat, ParseInt, Words, Line, Quiet, Strings.NeverStartsNumber, BoundLine;
    BoundLineFacts(lo, hi, c);
    FixedRoundTrip(lo, 6);
    FixedRoundTrip(hi, 6);
  }

  lemma MassSays(rd: Reader, m: (int, real))
    requires rd.ReadsNumerals()
    ensures SaysMass(rd, Line(MassWords(m)), m.0, m.1)
  {
    hide IsNumeral, IsWord, Fixed, Rounded, IntString, ParseInt, ParseFloat, Words, Line, Strings.NeverStartsNumber;
    IntIsNumeral(m.0);
    FixedIsWord(m.1, 4);
    LineFacts(MassWords(m));
    IntRoundTrip(m.0);
    FixedRoundTrip(m.1, 4);
  }

  lemma AtomSays(rd: Reader, a: AtomData)
    requires rd.ReadsNumerals()
    ensures SaysAtom(rd, Line(AtomWords(a)), a)
  {
    hide IsNumeral, Fixed, Rounded, IntString, ParseInt, ParseFloat, Dull, Words, Line, Strings.NeverStartsNumber;
    AtomLineFacts(a);
    IntRoundTrip(a.id);
    IntRoundTrip(a.mol);
    IntRoundTrip(a.kind);
    FixedRoundTrip(a.charge, 6);
    FixedRoundTrip(a.x, 6);
    FixedRoundTrip(a.y, 6);
    FixedRoundTrip(a.z, 6);
  }

  lemma BondSays(rd: Reader, b: BondData)
    requires rd.ReadsNumerals()
    ensures SaysBond(rd, Line(BondWords(b)), b)
  {
    hide IsNumeral, IsWord, IntString, ParseInt, ParseFloat, Words, Line, Strings.NeverStartsNumber;
    IntIsNumeral(b.id);
    IntIsNumeral(b.kind);
    IntIsNumeral(b.a);
    IntIsNumeral(b.b);
    LineFacts(BondWords(b));
    IntRoundTrip(b.id);
    IntRoundTrip(b.kind);
    IntRoundTrip(b.a);
    IntRoundTrip(b.b);
  }

  // ---------------------------------------------------------------- the whole file

  lemma HeadIs(rd: Reader, t: Topology, title: string)
    requires rd.ReadsNumerals()
    ensures |DataLines(t, title)| >= 20 && IsHead(rd, DataLines(t, title), t)
  {
    hide *;
    HeadLines(t, title);
    FrameIs(DataLines(t, title));
    CountsAre(rd, DataLines(t, title), t);
    BoxIs(rd, DataLines(t, title), t.box);
    HeadOf(rd, DataLines(t, title), t);
  }

  lemma HeadOf(rd: Reader, lines: seq<string>, t: Topology)
    requires |lines| >= 20 && HasFrame(lines) && HasCounts(rd, lines, t) && HasBox(rd, lines, t.box)
    ensures IsHead(rd, lines, t)
  {
  }

  lemma FrameIs(lines: seq<string>)
    requires |lines| >= 20
    requires lines[1] == lines[7] == lines[13] == lines[17] == lines[19] == "" && lines[18] == "Masses"
    requires lines[4] == "0 angles" && lines[5] == "0 dihedrals" && lines[6] == "0 impropers"
    requires lines[10] == "0 angle types" && lines[11] == "0 dihedral types" && lines[12] == "0 improper types"
    ensures HasFrame(lines)
  {
  }

  lemma CountsAre(rd: Reader, lines: seq<string>, t: Topology)
    requires rd.ReadsNumerals() && |lines| >= 20
    requires lines[2] == Count(|t.atoms|, ["atoms"]) && lines[3] == Count(|t.bonds|, ["bonds"])
    requires lines[8] == Count(t.atomTypes, ["atom", "types"])
    requires lines[9] == Count(Max(1, t.bondTypes), ["bond", "types"])
    ensures HasCounts(rd, lines, t)
  {
    hide SaysCount, Count, Reader.ReadsNumerals;
    CountSays(rd, |t.atoms|, ["atoms"]);
    CountSays(rd, |t.bonds|, ["bonds"]);
    CountSays(rd, t.atomTypes, ["atom", "types"]);
    CountSays(rd, Max(1, t.bondTypes), ["bond", "types"]);
  }

  lemma BoxIs(rd: Reader, lines: seq<string>, b: Box)
    requires rd.ReadsNumerals() && |lines| >= 20
    requires lines[14] == BoundLine(b.xlo, b.xhi, 'x') && lines[15] == BoundLine(b.ylo, b.yhi, 'y')
    requires lines[16] == BoundLine(b.zlo, b.zhi, 'z')
    ensures HasBox(rd, lines, b)
  {
    hide SaysBounds, BoundLine, Reader.ReadsNumerals;
    BoundsSay(rd, b.xlo, b.xhi, 'x');
    BoundsSay(rd, b.ylo, b.yhi, 'y');
    BoundsSay(rd, b.zlo, b.zhi, 'z');
    BoundNames();
  }

  lemma BoundNames()
    ensures [['x'] + "lo", ['x'] + "hi"] == ["xlo", "xhi"]
    ensures [['y'] + "lo", ['y'] + "hi"] == ["ylo", "yhi"]
    ensures [['z'] + "lo", ['z'] + "hi"] == ["zlo", "zhi"]
  {
    assert ['x'] + "lo" == "xlo" && ['x'] + "hi" == "xhi";
    assert ['y'] + "lo" == "ylo" && ['y'] + "hi" == "yhi";
    assert ['z'] + "lo" == "zlo" && ['z'] + "hi" == "zhi";
  }

  // The lines above the masses.
  lemma HeadLines(t: Topology, title: string)
    ensures |DataLines(t, title)| >= 20
    ensures var ls, b := DataLines(t, title), t.box;
      && ls[1] == ls[7] == ls[13] == ls[17] == ls[19] == "" && ls[18] == "Masses"
      && ls[2] == Count(|t.atoms|, ["atoms"]) && ls[3] == Count(|t.bonds|, ["bonds"])
      && ls[4] == "0 angles" && ls[5] == "0 dihedrals" && ls[6] == "0 impropers"
      && ls[8] == Count(t.atomTypes, ["atom", "types"]) && ls[9] == Count(Max(1, t.bondTypes), ["bond", "types"])
      && ls[10] == "0 angle types" && ls[11] == "0 dihedral types" && ls[12] == "0 improper types"
      && ls[14] == BoundLine(b.xlo, b.xhi, 'x') && ls[15] == BoundLine(b.ylo, b.yhi, 'y')
      && ls[16] == BoundLine(b.zlo, b.zhi, 'z')
  {
    hide Count, BoundLine, MassLines, AtomLines, BondSection;
    var front := [title, ""] + Counts(t) + BoxLines(t.box) + ["", "Masses", ""];
    var ls := DataLines(t, title);
    assert ls[..20] == front;
    assert forall k :: 0 <= k < 20 ==> ls[k] == front[k];
  }

  lemma BodyIs(rd: Reader, t: Topology, title: string)
    requires rd.ReadsNumerals()
    ensures IsBody(rd, DataLines(t, title), t)
  {
    hide SaysMass, SaysAtom, SaysBond, Line, MassWords, AtomWords, BondWords, Counts, BoxLines;
    var lines := DataLines(t, title);
    var masses, atoms := |t.masses|, |t.atoms|;
    LinesAt(t, title);
    forall k | 0 <= k < masses ensures SaysMass(rd, lines[20 + k], t.masses[k].0, t.masses[k].1) {
      MassSays(rd, t.masses[k]);
    }
    forall k | 0 <= k < atoms ensures SaysAtom(rd, lines[23 + masses + k], t.atoms[k]) {
      AtomSays(rd, t.atoms[k]);
    }
    forall k | 0 <= k < |t.bonds| ensures SaysBond(rd, lines[26 + masses + atoms + k], t.bonds[k]) {
      BondSays(rd, t.bonds[k]);
    }
  }

  lemma LinesAt(t: Topology, title: string)
    ensures var lines, masses, atoms, bonds := DataLines(t, title), |t.masses|, |t.atoms|, |t.bonds|;
      && |lines| == 23 + masses + atoms + (if bonds == 0 then 0 else 3 + bonds)
      && (forall k :: 0 <= k < masses ==> lines[20 + k] == Line(MassWords(t.masses[k])))
      && lines[20 + masses..23 + masses] == ["", "Atoms  # full", ""]
      && (forall k :: 0 <= k < atoms ==> lines[23 + masses + k] == Line(AtomWords(t.atoms[k])))
      && (bonds != 0 ==> lines[23 + masses + atoms..26 + masses + atoms] == ["", "Bonds", ""])
      && forall k :: 0 <= k < bonds ==> lines[26 + masses + atoms + k] == Line(BondWords(t.bonds[k]))
  {
    hide Line, MassWords, AtomWords, BondWords;
    assert |Counts(t)| == 12 && |BoxLines(t.box)| == 3;
    hide Counts, BoxLines;
    assert |Header(t, title)| == 20 + |t.masses|;
  }

  /** Every line of a written file: the title, the counts, the box, the masses, the atoms and the bonds all read back,
      reals to six decimals and masses to four. */
  lemma FileReadBack(rd: Reader, t: Topology, ffName: string, ffVersion: string)
    requires rd.ReadsNumerals() && '\n' !in ffName && '\n' !in ffVersion
    ensures var lines := Split(Join(DataLines(t, Title(ffName, ffVersion)), '\n'), '\n');
      && |lines| >= 20
      && lines[0] == "LAMMPS" + " data file - " + "Generated by " + "TopologyGenerator" + " (" + ffName + " "
                     + ffVersion + ")"
      && IsHead(rd, lines, t) && IsBody(rd, lines, t)
  {
    hide DataLines, IsHead, IsBody, Split, Join, Title, Reader.ReadsNumerals, Quiet;
    var title := Title(ffName, ffVersion);
    TitleFacts(ffName, ffVersion);
    FileUnbroken(t, title);
    HeadIs(rd, t, title);
    BodyIs(rd, t, title);
    FirstLine(t, title);
    TitleIs(ffName, ffVersion);
  }

  lemma FirstLine(t: Topology, title: string)
    ensures DataLines(t, title) != [] && DataLines(t, title)[0] == title
  {
  }

  lemma TitleIs(ffName: string, ffVersion: string)
    ensures Title(ffName, ffVersion)
      == "LAMMPS" + " data file - " + "Generated by " + "TopologyGenerator" + " (" + ffName + " " + ffVersion + ")"
  {
    var front := " data file - " + "Generated by " + "TopologyGenerator" + " (";
    assert "LAMMPS" + (front + ffName + " " + ffVersion + ")") == "LAMMPS" + front + ffName + " " + ffVersion + ")";
  }
}
