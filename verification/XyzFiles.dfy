/** XYZ files: written for the packer from a molecule topology, parsed back for coordinates. */
module XyzFiles {
  import opened Common
  import opened Sorting
  import opened Strings

  datatype MolAtom = MolAtom(index: int, element: string, x: real, y: real, z: real)

  datatype Point = Point(x: real, y: real, z: real)

  function Index(): MolAtom -> real {
    (a: MolAtom) => a.index as real
  }

  // sorted(atoms, key=index)
  function InOrder(atoms: seq<MolAtom>): seq<MolAtom> {
    Sorted(atoms, Index())
  }

  /** The order of writing is a stable permutation by index. */
  lemma InOrderFacts(atoms: seq<MolAtom>, index: int)
    ensures multiset(InOrder(atoms)) == multiset(atoms)
    ensures forall i, j :: 0 <= i < j < |InOrder(atoms)| ==> InOrder(atoms)[i].index <= InOrder(atoms)[j].index
    ensures WithKey(InOrder(atoms), Index(), index as real) == WithKey(atoms, Index(), index as real)
  {
    hide WithKey, Sorted;
    SortedFacts(atoms, Index(), index as real);
    forall i, j | 0 <= i < j < |InOrder(atoms)| ensures InOrder(atoms)[i].index <= InOrder(atoms)[j].index {
      assert Index()(InOrder(atoms)[i]) <= Index()(InOrder(atoms)[j]);
    }
  }

  // ---------------------------------------------------------------- writing

  function XyzLine(a: MolAtom): string {
    a.element + "  " + Fixed(a.x, 6) + "  " + Fixed(a.y, 6) + "  " + Fixed(a.z, 6)
  }

  function XyzAtomLines(atoms: seq<MolAtom>): (ls: seq<string>)
    ensures |ls| == |atoms|
  {
    seq(|atoms|, k requires 0 <= k < |atoms| => XyzLine(atoms[k]))
  }

  function XyzLines(atoms: seq<MolAtom>, molId: string): seq<string> {
    [NatString(|atoms|), molId + " converted from MOL"] + XyzAtomLines(InOrder(atoms))
  }

  // A molecule without atoms is an error.
  method ConvertMolToXyz(atoms: seq<MolAtom>, molId: string) returns (content: Option<string>)
    ensures content == if atoms == [] then None else Some(Join(XyzLines(atoms, molId), '\n'))
  {
    hide XyzLine, InOrder, NatString;
    if atoms == [] {
      return None;
    }
    var lines := [NatString(|atoms|), molId + " converted from MOL"];
    var order := InOrder(atoms);
    ghost var start := lines;
    for i := 0 to |order|
      invariant lines == start + XyzAtomLines(order)[..i]
    {
      lines := lines + [XyzLine(order[i])];
    }
    assert lines == XyzLines(atoms, molId);
    content := Some(Join(lines, '\n'));
  }

  // ---------------------------------------------------------------- parsing

  // The coordinates on a line; None when the line is passed over.
  function ParseXyzLine(rd: Reader, line: string): Option<Point> {
    var ws := Words(line);
    if |ws| < 4 then None
    else
      var x, y, z := rd.readFloat(ws[1]), rd.readFloat(ws[2]), rd.readFloat(ws[3]);
      if x.Some? && y.Some? && z.Some? then Some(Point(x.value, y.value, z.value)) else None
  }

  function Points(rd: Reader, lines: seq<string>): seq<Point> {
    if lines == [] then []
    else
      var p := ParseXyzLine(rd, lines[0]);
      (if p.Some? then [p.value] else []) + Points(rd, lines[1..])
  }

  // lines[2 : 2 + n]; an end below zero counts from the back.
  function Slice(lines: seq<string>, n: int): seq<string>
    requires |lines| >= 2
  {
    var end := if 2 + n < 0 then 2 + n + |lines| else Min(2 + n, |lines|);
    if end < 2 then [] else lines[2..end]
  }

  /** The announced lines: those after the comment, as many as announced and as there are; a negative number leaves that
      many off the end, less two. */
  lemma SliceIs(lines: seq<string>, n: int)
    requires |lines| >= 2
    ensures n >= 0 ==> |Slice(lines, n)| == if n <= |lines| - 2 then n else |lines| - 2
    ensures n == -1 || n == -2 ==> Slice(lines, n) == []
    ensures n < -2 ==> |Slice(lines, n)| == if |lines| + n >= 0 then |lines| + n else 0
    ensures forall k :: 0 <= k < |Slice(lines, n)| ==> Slice(lines, n)[k] == lines[2 + k]
  {
  }

  // content is None when the file is missing.
  function Coordinates(rd: Reader, content: Option<string>): seq<Point> {
    if content.None? then []
    else
      var lines := Split(Strip(content.value), '\n');
      if |lines| < 3 then []
      else
        var n := rd.readInt(Strip(lines[0]));
        if n.None? then [] else Points(rd, Slice(lines, n.value))
  }

  method ParseXyzCoordinates(rd: Reader, content: Option<string>) returns (coords: seq<Point>)
    ensures coords == Coordinates(rd, content)
  {
    hide Split, Strip, ParseXyzLine, ParseInt;
    coords := [];
    if content.None? {
      return;
    }
    var lines := Split(Strip(content.value), '\n');
    if |lines| < 3 {
      return;
    }
    var n := rd.readInt(Strip(lines[0]));
    if n.None? {
      return;
    }
    var body := Slice(lines, n.value);
    assert body[0..] == body;
    for i := 0 to |body|
      invariant coords + Points(rd, body[i..]) == Points(rd, body)
    {
      assert body[i..][1..] == body[i + 1..];
      var p := ParseXyzLine(rd, body[i]);
      if p.Some? {
        coords := coords + [p.value];
      }
    }
  }

  // ---------------------------------------------------------------- written, then parsed

  function PointOf(a: MolAtom): Point {
    Point(Rounded(a.x, 6), Rounded(a.y, 6), Rounded(a.z, 6))
  }

  function PointsOf(atoms: seq<MolAtom>): (ps: seq<Point>)
    ensures |ps| == |atoms|
  {
    seq(|atoms|, k requires 0 <= k < |atoms| => PointOf(atoms[k]))
  }

  // Words with double blanks between them.
  lemma WordThenTwoBlanks(w: string, rest: string)
    requires IsWord(w)
    ensures Words(w + "  " + rest) == [w] + Words(rest)
  {
    hide Words, IsWord;
    var tail := " " + (" " + rest);
    assert w + "  " + rest == w + tail;
    FirstWord(w, tail);
    SkipSpace(" " + rest);
    SkipSpace(rest);
  }

  lemma XyzLineFacts(rd: Reader, a: MolAtom)
    requires rd.ReadsNumerals()
    requires IsWord(a.element)
    ensures ParseXyzLine(rd, XyzLine(a)) == Some(PointOf(a))
    ensures XyzLine(a) != "" && '\n' !in XyzLine(a) && !IsSpace(XyzLine(a)[|XyzLine(a)| - 1])
  {
    hide Fixed, Rounded, ParseFloat, Words, IsNumeral;
    var x, y, z := Fixed(a.x, 6), Fixed(a.y, 6), Fixed(a.z, 6);
    FixedRoundTrip(a.x, 6);
    FixedRoundTrip(a.y, 6);
    FixedRoundTrip(a.z, 6);
    FixedIsWord(a.x, 6);
    FixedIsWord(a.y, 6);
    FixedIsWord(a.z, 6);
    LastWord(z);
    WordThenTwoBlanks(y, z);
    WordThenTwoBlanks(x, y + "  " + z);
    WordThenTwoBlanks(a.element, x + "  " + (y + "  " + z));
    assert XyzLine(a) == a.element + "  " + (x + "  " + (y + "  " + z));
    WordUnbroken(a.element);
    WordUnbroken(x);
    WordUnbroken(y);
    WordUnbroken(z);
  }

  lemma LastWord(w: string)
    requires IsWord(w)
    ensures Words(w) == [w]
  {
    FirstWord(w, "");
    assert w + "" == w;
    assert Words("") == [];
  }

  lemma WordUnbroken(w: string)
    requires IsWord(w)
    ensures '\n' !in w && !IsSpace(w[|w| - 1])
  {
  }

  lemma {:induction false} PointsReadBack(rd: Reader, atoms: seq<MolAtom>)
    requires rd.ReadsNumerals()
    requires forall k :: 0 <= k < |atoms| ==> IsWord(atoms[k].element)
    ensures Points(rd, XyzAtomLines(atoms)) == PointsOf(atoms)
  {
    hide ParseXyzLine, XyzLine, IsWord, PointOf;
    if atoms != [] {
      PointsReadBack(rd, atoms[1..]);
      XyzLineFacts(rd, atoms[0]);
      assert XyzAtomLines(atoms)[1..] == XyzAtomLines(atoms[1..]);
      assert PointsOf(atoms) == [PointOf(atoms[0])] + PointsOf(atoms[1..]);
    }
  }

  lemma LinesUnbroken(rd: Reader, atoms: seq<MolAtom>, molId: string)
    requires rd.ReadsNumerals()
    requires '\n' !in molId && forall k :: 0 <= k < |InOrder(atoms)| ==> IsWord(InOrder(atoms)[k].element)
    ensures Split(Join(XyzLines(atoms, molId), '\n'), '\n') == XyzLines(atoms, molId)
  {
    hide InOrder, XyzLine, IsWord, Split, Join, NatString;
    var ls := XyzLines(atoms, molId);
    IntRoundTrip(|atoms|);
    forall k | 0 <= k < |ls| ensures '\n' !in ls[k] {
      if k == 0 {
        assert ls[0] == IntString(|atoms|);
      } else if k == 1 {
        assert '\n' !in " converted from MOL";
      } else {
        XyzLineFacts(rd, InOrder(atoms)[k - 2]);
      }
    }
    SplitJoin(ls, '\n');
  }

  lemma {:induction false} JoinEdges(ls: seq<string>)
    requires ls != [] && ls[0] != "" && ls[|ls| - 1] != ""
    ensures Join(ls, '\n') != "" && Join(ls, '\n')[0] == ls[0][0]
    ensures Join(ls, '\n')[|Join(ls, '\n')| - 1] == ls[|ls| - 1][|ls[|ls| - 1]| - 1]
  {
    JoinLast(ls);
    if |ls| > 1 {
      assert Join(ls, '\n') == ls[0] + ['\n'] + Join(ls[1..], '\n');
    }
  }

  lemma {:induction false} JoinLast(ls: seq<string>)
    requires ls != [] && ls[|ls| - 1] != ""
    ensures Join(ls, '\n') != ""
    ensures Join(ls, '\n')[|Join(ls, '\n')| - 1] == ls[|ls| - 1][|ls[|ls| - 1]| - 1]
  {
    if |ls| > 1 {
      JoinLast(ls[1..]);
      var rest := Join(ls[1..], '\n');
      var all := ls[0] + ['\n'] + rest;
      assert all[|all| - 1] == rest[|rest| - 1];
    }
  }

  lemma SortedWords(atoms: seq<MolAtom>)
    requires forall k :: 0 <= k < |atoms| ==> IsWord(atoms[k].element)
    ensures |InOrder(atoms)| == |atoms| && forall k :: 0 <= k < |InOrder(atoms)| ==> IsWord(InOrder(atoms)[k].element)
  {
    hide InOrder, IsWord;
    InOrderFacts(atoms, 0);
    SameSizes(InOrder(atoms), atoms);
    forall k | 0 <= k < |InOrder(atoms)| ensures IsWord(InOrder(atoms)[k].element) {
      assert InOrder(atoms)[k] in multiset(InOrder(atoms));
      assert InOrder(atoms)[k] in multiset(atoms);
    }
  }

  lemma FileTidy(ls: seq<string>)
    requires ls != [] && ls[0] != "" && ls[|ls| - 1] != ""
    requires !IsSpace(ls[0][0]) && !IsSpace(ls[|ls| - 1][|ls[|ls| - 1]| - 1])
    ensures Strip(Join(ls, '\n')) == Join(ls, '\n')
  {
    hide Join, Strip;
    JoinEdges(ls);
    TidyStrip(Join(ls, '\n'));
  }

  /** Parsing a written file gives the coordinates of the atoms in index order, to six decimals. */
  lemma CoordinatesReadBack(rd: Reader, atoms: seq<MolAtom>, molId: string)
    requires rd.ReadsNumerals()
    requires atoms != [] && '\n' !in molId && forall k :: 0 <= k < |atoms| ==> IsWord(atoms[k].element)
    ensures Coordinates(rd, Some(Join(XyzLines(atoms, molId), '\n'))) == PointsOf(InOrder(atoms))
  {
    hide *;
    SortedWords(atoms);
    var order, ls := InOrder(atoms), XyzLines(atoms, molId);
    LinesUnbroken(rd, atoms, molId);
    XyzShape(atoms, molId);
    XyzLineFacts(rd, order[|order| - 1]);
    CountEdges(rd, |atoms|);
    FileTidy(ls);
    ReadLines(rd, Join(ls, '\n'), ls, |atoms|);
    PointsReadBack(rd, order);
  }

  /** The file itself: the number of atoms, a comment, and a line for each atom in index order whose words are its
      element and its coordinates. */
  lemma FileSays(rd: Reader, atoms: seq<MolAtom>, molId: string)
    requires rd.ReadsNumerals()
    requires atoms != [] && '\n' !in molId && forall k :: 0 <= k < |atoms| ==> IsWord(atoms[k].element)
    ensures var lines, order := Split(Join(XyzLines(atoms, molId), '\n'), '\n'), InOrder(atoms);
      && |lines| == 2 + |atoms| && |order| == |atoms|
      && rd.readInt(lines[0]) == Some(|atoms|) && lines[1] == molId + " converted from MOL"
      && forall k :: 0 <= k < |atoms| ==> SaysAtom(rd, lines[2 + k], order[k])
  {
    hide *;
    SortedWords(atoms);
    LinesUnbroken(rd, atoms, molId);
    LinesOf(atoms, molId);
    CountEdges(rd, |atoms|);
    var order := InOrder(atoms);
    forall k | 0 <= k < |atoms| ensures SaysAtom(rd, XyzLine(order[k]), order[k]) {
      LineSays(rd, order[k]);
    }
  }

  predicate SaysAtom(rd: Reader, line: string, a: MolAtom) {
    var ws := Words(line);
    && |ws| == 4 && ws[0] == a.element
    && rd.readFloat(ws[1]) == Some(Rounded(a.x, 6)) && rd.readFloat(ws[2]) == Some(Rounded(a.y, 6))
    && rd.readFloat(ws[3]) == Some(Rounded(a.z, 6))
  }

  lemma LineSays(rd: Reader, a: MolAtom)
    requires rd.ReadsNumerals() && IsWord(a.element)
    ensures SaysAtom(rd, XyzLine(a), a)
  {
    hide Fixed, Rounded, ParseFloat, Words, IsNumeral;
    var x, y, z := Fixed(a.x, 6), Fixed(a.y, 6), Fixed(a.z, 6);
    FixedRoundTrip(a.x, 6);
    FixedRoundTrip(a.y, 6);
    FixedRoundTrip(a.z, 6);
    FixedIsWord(a.x, 6);
    FixedIsWord(a.y, 6);
    FixedIsWord(a.z, 6);
    LastWord(z);
    WordThenTwoBlanks(y, z);
    WordThenTwoBlanks(x, y + "  " + z);
    WordThenTwoBlanks(a.element, x + "  " + (y + "  " + z));
    assert XyzLine(a) == a.element + "  " + (x + "  " + (y + "  " + z));
  }

  lemma LinesOf(atoms: seq<MolAtom>, molId: string)
    requires |InOrder(atoms)| == |atoms|
    ensures var ls := XyzLines(atoms, molId);
      && |ls| == 2 + |atoms| && ls[0] == NatString(|atoms|) && ls[1] == molId + " converted from MOL"
      && forall k :: 0 <= k < |atoms| ==> ls[2 + k] == XyzLine(InOrder(atoms)[k])
  {
    hide InOrder, XyzLine, NatString;
  }

  lemma XyzShape(atoms: seq<MolAtom>, molId: string)
    requires atoms != [] && |InOrder(atoms)| == |atoms|
    ensures var ls := XyzLines(atoms, molId);
      && |ls| == 2 + |atoms| && ls[0] == NatString(|atoms|) && ls[2..] == XyzAtomLines(InOrder(atoms))
      && ls[|ls| - 1] == XyzLine(InOrder(atoms)[|atoms| - 1])
  {
    hide InOrder, XyzLine, NatString;
  }

  lemma ReadLines(rd: Reader, content: string, ls: seq<string>, n: nat)
    requires Strip(content) == content && Split(content, '\n') == ls && |ls| == 2 + n && n > 0
    requires rd.readInt(Strip(ls[0])) == Some(n as int)
    ensures Coordinates(rd, Some(content)) == Points(rd, ls[2..])
  {
    hide Strip, Split, ParseInt, Points;
    assert ls[2..2 + n] == ls[2..];
  }

  lemma CountEdges(rd: Reader, n: nat)
    requires rd.ReadsNumerals()
    ensures NatString(n) != "" && !IsSpace(NatString(n)[0]) && Strip(NatString(n)) == NatString(n)
    ensures rd.readInt(NatString(n)) == Some(n as int)
  {
    IntRoundTrip(n);
    TidyStrip(NatString(n));
  }
}
