/** The two crystal builds from end to end: place the atoms, then hydroxylate the surface when the specification
    asks. */
module CrystalSlab {
  import opened Common
  import opened Numeric
  import opened Sublattice
  import opened CrystalPlacement
  import opened Hydroxyl
  import opened HydroxylFacts
  import opened Lattice

  datatype Surfacing = Bare | Hydroxylated(density: real)

  datatype SlabError = NotASupercell(error: EnumerationError) | NoAtoms | NegativeCount | Charged

  type Slab = (seq<Atom>, map<string, int>)

  predicate InBasis(basis: seq<Site>, element: string) {
    exists k :: 0 <= k < |basis| && basis[k].element == element
  }

  // Hydroxylation takes from oxygen what it gives to hydrogen: see HydroxylationConservesIff.
  predicate Balanced(surfacing: Surfacing, charges: Charges, basis: seq<Site>) {
    surfacing.Bare? || (HasCharge(charges, "O") && (HasCharge(charges, "H") || !InBasis(basis, "H")))
  }

  // What becomes of the atoms of a lattice: nothing, or a hydroxylation.
  ghost predicate IsSurfaced(surfacing: Surfacing, before: seq<AtomView>, after: seq<AtomView>, chosen: seq<nat>,
                             cation: Option<string>, charges: Charges, lx: real, ly: real)
  {
    match surfacing
    case Bare => after == before && chosen == []
    case Hydroxylated(density) =>
      before != [] && IsHydroxylation(before, after, chosen, cation, density, charges, lx, ly)
  }

  // A negative number of groups is asked for, and there is an oxygen for them.
  ghost predicate AsksNegative(surfacing: Surfacing, before: seq<AtomView>, lx: real, ly: real) {
    surfacing.Hydroxylated? && TopOxygens(before) != {} && GroupsOn(surfacing.density, lx, ly) <= -1.0
  }

  // Groups are added and relabelled, and the slab is then charged by 0.01 or more.
  ghost predicate EndsCharged(surfacing: Surfacing, before: seq<AtomView>, charges: Charges, lx: real, ly: real) {
    && surfacing.Hydroxylated? && TopOxygens(before) != {} && GroupsOn(surfacing.density, lx, ly) >= 1.0
    && HasCharge(charges, "O")
    && AbsR(Total(before) + if HasCharge(charges, "H") then 0.0 else CountOf(before, "H") as real * 0.4) >= 0.01
  }

  /** Ids count from 1; types number the labels one to one and fit the atoms, unless the unit cell has a label Hoh; the
      total charge is that of n unit cells and of what the groups add. */
  ghost predicate IsSlab(slab: Slab, before: seq<AtomView>, n: nat, groups: nat, charges: Charges, basis: seq<Site>)
    reads slab.0
  {
    var vs := Views(slab.0);
    && Distinct(slab.0) && Numbered(vs)
    && (!InBasis(basis, "Hoh") ==> AllTyped(vs, slab.1) && NumbersOnto(slab.1))
    && Total(vs) == CellsCharge(n, basis, charges) + ChargeAdded(before, groups, charges)
    && CountOf(before, "H") == n * BasisCount(basis, "H")
  }

  /** A neutral unit cell and a balanced charge table give a neutral slab. */
  lemma NeutralSlab(slab: Slab, before: seq<AtomView>, n: nat, groups: nat, surfacing: Surfacing, charges: Charges,
                    basis: seq<Site>)
    requires IsSlab(slab, before, n, groups, charges, basis) && (surfacing.Bare? ==> groups == 0)
    requires BasisCharge(basis, charges) == 0.0 && Balanced(surfacing, charges, basis)
    ensures Total(Views(slab.0)) == 0.0
  {
    hide Total, BasisCharge, CountOf, HasCharge, Numbered, AllTyped, NumbersOnto, Views;
    if !InBasis(basis, "H") {
      NoneInBasis(basis, "H");
    }
  }

  lemma {:induction false} NoneInBasis(basis: seq<Site>, element: string)
    requires forall k :: 0 <= k < |basis| ==> basis[k].element != element
    ensures BasisCount(basis, element) == 0
  {
    if basis != [] {
      NoneInBasis(basis[..|basis| - 1], element);
    }
  }

  // The length of a number of cells or layers in a row.
  function Span(n: int, cell: real): real {
    n as real * cell
  }

  function Places(vs: seq<AtomView>, n: nat): (s: seq<Placed>)
    requires n <= |vs|
    ensures |s| == n && forall k :: 0 <= k < n ==> s[k] == vs[k].p
  {
    seq(n, k requires 0 <= k < n => vs[k].p)
  }

  /** The first n atoms, those of the lattice, are at pairwise different places inside the box. */
  ghost predicate LatticeStands(vs: seq<AtomView>, n: int, lx: real, ly: real, lz: real) {
    0 <= n <= |vs| && InBox(Places(vs, n), lx, ly, lz) && LatticeApart(vs, n)
  }

  ghost predicate LatticeApart(vs: seq<AtomView>, n: int) {
    0 <= n <= |vs| && Apart(Places(vs, n))
  }

  lemma StillPlaced(placed: seq<Placed>, before: seq<AtomView>, after: seq<AtomView>, lx: real, ly: real, lz: real)
    requires |before| == |placed| && forall k :: 0 <= k < |placed| ==> before[k].p == placed[k]
    requires KeepsPlaces(before, after)
    ensures Apart(placed) ==> LatticeApart(after, |placed|)
    ensures Apart(placed) && InBox(placed, lx, ly, lz) ==> LatticeStands(after, |placed|, lx, ly, lz)
  {
  }

  // The views of built atoms.
  lemma BuiltViews(atoms: seq<Atom>, types: map<string, int>, place: Placement, nz: nat, cells: seq<Cell>,
                   basis: seq<Site>)
    requires Holds(atoms, PlaceAll(place, OverLayers(nz, cells, basis)), types)
    ensures var placed := PlaceAll(place, OverLayers(nz, cells, basis));
      && |atoms| == |placed| && Distinct(atoms) && types == TypeTable(placed)
      && forall k :: 0 <= k < |atoms| ==>
           placed[k].element in types && Views(atoms)[k] == AtomView(k + 1, types[placed[k].element], placed[k])
  {
    hide OverLayers, TypeTable, PlaceAll, Atom.View;
  }

  lemma PlacedElements(place: Placement, nz: nat, cells: seq<Cell>, basis: seq<Site>, charges: Charges)
    requires KeepsCharge(place, charges)
    ensures forall p :: p in PlaceAll(place, OverLayers(nz, cells, basis)) ==> InBasis(basis, p.element)
  {
    hide OverLayers, PlaceAll, ChargeOf, KeepsCharge;
    var origins := OverLayers(nz, cells, basis);
    LayersOrigins(nz, cells, basis);
    forall k | 0 <= k < |origins| ensures InBasis(basis, PlaceAll(place, origins)[k].element) {
      PlacedCharge(place, origins, charges, k);
      assert origins[k] in origins;
    }
  }

  // What the builders leave is what the hydroxylation passes start from.
  lemma BuiltSlab(atoms: seq<Atom>, types: map<string, int>, place: Placement, nz: nat, cells: seq<Cell>,
                  basis: seq<Site>, charges: Charges)
    requires KeepsCharge(place, charges) && Holds(atoms, PlaceAll(place, OverLayers(nz, cells, basis)), types)
    ensures |atoms| == LatticeSize(nz, |cells|, |basis|) && Distinct(atoms) && (atoms != [] ==> types != map[])
    ensures var vs := Views(atoms);
      && AsBuilt(vs, charges) && AllTyped(vs, types) && NumbersOnto(types)
      && ("Hoh" in types ==> InBasis(basis, "Hoh"))
      && CountOf(vs, "H") == nz * |cells| * BasisCount(basis, "H")
      && Total(vs) == OriginCharge(OverLayers(nz, cells, basis), charges)
  {
    hide OverLayers, TypeTable, ChargeOf, Total, CellsCharge, OriginCharge, CountOf, PlaceAll, Views, Holds,
        KeepsCharge, InBasis, NumbersOnto, AsBuilt, OriginCount, BasisCount;
    var origins := OverLayers(nz, cells, basis);
    var placed, vs := PlaceAll(place, origins), Views(atoms);
    LayersLength(nz, cells, basis);
    BuiltViews(atoms, types, place, nz, cells, basis);
    PlacedElements(place, nz, cells, basis, charges);
    TypeTableNumbersOnto(placed);
    assert atoms != [] ==> placed[0].element in types;
    BuiltFromOrigins(place, origins, charges, vs);
    CountOfOrigins(place, origins, charges, vs, "H");
    CountOfLayers(nz, cells, basis, "H");
    TotalOfOrigins(place, origins, charges, vs);
  }

  /** The end that both builds share: nothing for a bare surface; otherwise a hydroxylation, which fails without atoms,
      on a negative number of groups, and when it leaves a charge. */
  method FinishSlab(atoms: seq<Atom>, types: map<string, int>, surfacing: Surfacing, lx: real, ly: real,
                    charges: Charges, choose: (nat, nat) -> seq<nat>)
    returns (res: Result<Slab, SlabError>, ghost chosen: seq<nat>, ghost cation: Option<string>)
    requires Distinct(atoms) && (atoms != [] ==> types != map[]) && IsChooser(choose)
    requires AsBuilt(Views(atoms), charges) && AllTyped(Views(atoms), types) && NumbersOnto(types)
    modifies atoms
    ensures res == Failure(NoAtoms) <==> surfacing.Hydroxylated? && atoms == []
    ensures res == Failure(NegativeCount) <==> AsksNegative(surfacing, old(Views(atoms)), lx, ly)
    ensures res == Failure(Charged) <==> EndsCharged(surfacing, old(Views(atoms)), charges, lx, ly)
    ensures res.Failure? ==> res.error in {NoAtoms, NegativeCount, Charged}
    ensures res.Success? ==>
      var before, after := old(Views(atoms)), Views(res.value.0);
      && IsSurfaced(surfacing, before, after, chosen, cation, charges, lx, ly)
      && Total(after) == Total(before) + ChargeAdded(before, |chosen|, charges)
      && Distinct(res.value.0) && Numbered(after)
      && ("Hoh" !in types ==> AllTyped(after, res.value.1) && NumbersOnto(res.value.1))
    ensures res.Success? ==> atoms <= res.value.0
    ensures res.Success? ==> forall k :: |atoms| <= k < |res.value.0| ==> fresh(res.value.0[k])
  {
    hide Views, AllTyped, NumbersOnto, Total, CountOf, HasCharge, HydroxylCount, Chosen, Hydroxyl.Surface, GrownAtoms,
        IsPlan, Plan.RelabelAll, IdsOf, KeepsPlaces, GrownTypes, Select, IsStructural, Plan.Complete, Wanted,
        IsHydroxylation, TopOxygens, GroupsOn;
    chosen, cation := [], None;
    if surfacing.Bare? {
      res := Success((atoms, types));
      return;
    }
    if atoms == [] {
      NoCandidates([]);
      res := Failure(NoAtoms);
      return;
    }
    ghost var before := Views(atoms);
    chosen := Chosen(before, choose, Wanted(surfacing.density, lx, ly));
    var atoms', types', ok, neutral;
    ghost var plan, maxId;
    atoms', types', ok, neutral, plan, maxId, cation :=
      Hydroxylate(atoms, types, surfacing.density, lx, ly, charges, choose);
    WantedIs(surfacing.density, lx, ly);
    SurfaceIsTop(before);
    if !ok {
      res := Failure(NegativeCount);
      return;
    }
    ghost var all := GrownAtoms(before, types, Select(before, chosen), charges);
    ChosenFacts(before, choose, Wanted(surfacing.density, lx, ly));
    HydroxylationIs(before, types, surfacing.density, lx, ly, charges, choose, chosen, all, Views(atoms'), plan, maxId,
                    cation);
    TotalIs(before, types, charges, chosen, all, Views(atoms'), plan, lx, ly, maxId, cation);
    if !neutral {
      res := Failure(Charged);
      return;
    }
    res := Success((atoms', types'));
  }

  lemma NoCandidates(vs: seq<AtomView>)
    requires vs == []
    ensures TopOxygens(vs) == {}
  {
  }

  // How a slab came about: its lattice, the cells of it, the oxygens that got a group, the structural cation.
  datatype Trace = Trace(lattice: seq<AtomView>, cells: seq<Cell>, chosen: seq<nat>, cation: Option<string>)

  /** A finished slab of n unit cells: its lattice, surfaced as asked. */
  ghost predicate IsBuilt(slab: Slab, trace: Trace, n: nat, surfacing: Surfacing, charges: Charges, basis: seq<Site>,
                          lx: real, ly: real)
    reads slab.0
  {
    && IsSurfaced(surfacing, trace.lattice, Views(slab.0), trace.chosen, trace.cation, charges, lx, ly)
    && IsSlab(slab, trace.lattice, n, |trace.chosen|, charges, basis)
  }

  // The charge and the hydrogens of n unit cells.
  ghost predicate IsCharged(lattice: seq<AtomView>, n: nat, charges: Charges, basis: seq<Site>) {
    Total(lattice) == CellsCharge(n, basis, charges) && CountOf(lattice, "H") == n * BasisCount(basis, "H")
  }

  lemma BuiltIs(slab: Slab, trace: Trace, n: nat, surfacing: Surfacing, charges: Charges, basis: seq<Site>, lx: real,
                ly: real, types: map<string, int>)
    requires IsSurfaced(surfacing, trace.lattice, Views(slab.0), trace.chosen, trace.cation, charges, lx, ly)
    requires Total(Views(slab.0)) == Total(trace.lattice) + ChargeAdded(trace.lattice, |trace.chosen|, charges)
    requires Distinct(slab.0) && Numbered(Views(slab.0)) && IsCharged(trace.lattice, n, charges, basis)
    requires "Hoh" !in types ==> AllTyped(Views(slab.0), slab.1) && NumbersOnto(slab.1)
    requires "Hoh" in types ==> InBasis(basis, "Hoh")
    ensures IsBuilt(slab, trace, n, surfacing, charges, basis, lx, ly)
  {
    hide IsSurfaced, Views, Total, CountOf, CellsCharge, BasisCount, ChargeAdded, Numbered, AllTyped, NumbersOnto,
        InBasis;
  }

  // The atoms of the lattice are still apart, and in the box.
  lemma LatticeKept(surfacing: Surfacing, placed: seq<Placed>, trace: Trace, after: seq<AtomView>, charges: Charges,
                    lx: real, ly: real, boxX: real, boxY: real, boxZ: real)
    requires IsSurfaced(surfacing, trace.lattice, after, trace.chosen, trace.cation, charges, lx, ly)
    requires |trace.lattice| == |placed| && forall k :: 0 <= k < |placed| ==> trace.lattice[k].p == placed[k]
    ensures Apart(placed) ==> LatticeApart(after, |placed|)
    ensures Apart(placed) && InBox(placed, boxX, boxY, boxZ) ==> LatticeStands(after, |placed|, boxX, boxY, boxZ)
  {
    hide IsChoice, LabelsKept, LabelsChanged, Apart, InBox, LatticeApart, LatticeStands, KeepsPlaces;
    assert KeepsPlaces(trace.lattice, after) by {
      if surfacing.Bare? {
        PassesKeepPlaces(after, [], after, Plan({}, {}, None, map[], 0.0, 0.0));
      }
    }
    StillPlaced(placed, trace.lattice, after, boxX, boxY, boxZ);
  }

  /** The transformed build from end to end. */
  method BuildMatrixSlab(m: Matrix, nz: nat, lx: real, ly: real, c: real, charges: Charges, basis: seq<Site>,
                         surfacing: Surfacing, choose: (nat, nat) -> seq<nat>)
    returns (res: Result<Slab, SlabError>, ghost trace: Trace)
    requires IsChooser(choose)
    ensures Det(m) <= 0 <==> res.Failure? && res.error.NotASupercell?
    ensures res == Failure(NoAtoms) <==> Det(m) > 0 && surfacing.Hydroxylated? && LatticeSize(nz, Det(m), |basis|) == 0
    ensures res == Failure(NegativeCount) <==> Det(m) > 0 && AsksNegative(surfacing, trace.lattice, lx, ly)
    ensures res == Failure(Charged) <==> Det(m) > 0 && EndsCharged(surfacing, trace.lattice, charges, lx, ly)
    ensures Det(m) > 0 && lx > 0.0 && ly > 0.0 ==>
      IsMatrixLattice(trace.lattice, trace.cells, m, nz, lx, ly, c, charges, basis)
    ensures Det(m) > 0 ==> IsCharged(trace.lattice, nz * Det(m), charges, basis)
    ensures res.Success? ==>
      && IsBuilt(res.value, trace, nz * Det(m), surfacing, charges, basis, lx, ly)
      && (lx > 0.0 && ly > 0.0 && c > 0.0 && SitesDiffer(basis) ==>
            LatticeStands(Views(res.value.0), LatticeSize(nz, Det(m), |basis|), lx, ly, Span(nz, c)))
  {
    hide *;
    trace := Trace([], [], [], None);
    var placed, cells := BuildWithMatrix(m, nz, lx, ly, c, charges, basis);
    if placed.Failure? {
      res := Failure(NotASupercell(placed.error));
      return;
    }
    var (atoms, types) := placed.value;
    ghost var place := MatrixPlacement(m, lx, ly, c, charges);
    ghost var all := PlaceAll(place, OverLayers(nz, cells, basis));
    ghost var before := Views(atoms);
    MatrixPlacementKeepsCharge(m, lx, ly, c, charges);
    BuiltSlab(atoms, types, place, nz, cells, basis, charges);
    ChargeOfLayers(nz, cells, basis, charges);
    ChargedIs(before, nz * |cells|, charges, basis);
    BuiltViews(atoms, types, place, nz, cells, basis);
    if lx > 0.0 && ly > 0.0 {
      CellsListed(m, cells);
      MatrixLattice(before, cells, m, nz, lx, ly, c, charges, basis);
    }
    ghost var chosen, cation;
    res, chosen, cation := FinishSlab(atoms, types, surfacing, lx, ly, charges, choose);
    trace := Trace(before, cells, chosen, cation);
    SizeIs(nz, |cells|, |basis|);
    if res.Success? {
      BuiltIs(res.value, trace, nz * Det(m), surfacing, charges, basis, lx, ly, types);
      if lx > 0.0 && ly > 0.0 && c > 0.0 && SitesDiffer(basis) {
        MatrixBuildTheorem(m, cells, nz, lx, ly, c, charges, basis);
        SpanIs(nz, c);
        LatticeKept(surfacing, all, trace, Views(res.value.0), charges, lx, ly, lx, ly, Span(nz, c));
      }
    }
  }

  lemma ChargedIs(lattice: seq<AtomView>, n: nat, charges: Charges, basis: seq<Site>)
    requires Total(lattice) == CellsCharge(n, basis, charges) && CountOf(lattice, "H") == n * BasisCount(basis, "H")
    ensures IsCharged(lattice, n, charges, basis)
  {
  }

  lemma CellsListed(m: Matrix, cells: seq<Cell>)
    requires |cells| == Det(m) && (forall d :: d in cells <==> InCell(m, d))
    requires forall i, j :: 0 <= i < j < |cells| ==> ScannedBefore(cells[i], cells[j])
    ensures ListsCells(m, cells)
  {
  }

  lemma SpanIs(n: int, cell: real)
    ensures Span(n, cell) == n as real * cell
  {
  }

  /** The replicate build from end to end. */
  method BuildReplicateSlab(cellX: real, cellY: real, skew: real, mode: CellMode, c: real, charges: Charges, nx: nat,
                            ny: nat, nz: nat, lx: real, ly: real, basis: seq<Site>, surfacing: Surfacing,
                            choose: (nat, nat) -> seq<nat>)
    returns (res: Result<Slab, SlabError>, ghost trace: Trace)
    requires IsChooser(choose)
    ensures res == Failure(NoAtoms) <==> surfacing.Hydroxylated? && LatticeSize(nz, nx * ny, |basis|) == 0
    ensures res.Failure? ==> !res.error.NotASupercell?
    ensures res == Failure(NegativeCount) <==> AsksNegative(surfacing, trace.lattice, lx, ly)
    ensures res == Failure(Charged) <==> EndsCharged(surfacing, trace.lattice, charges, lx, ly)
    ensures IsGridLattice(trace.lattice, nx, ny, nz, cellX, cellY, skew, mode, c, charges, basis)
    ensures IsCharged(trace.lattice, nz * (nx * ny), charges, basis)
    ensures res.Success? ==>
      var built := LatticeSize(nz, nx * ny, |basis|);
      && IsBuilt(res.value, trace, nz * (nx * ny), surfacing, charges, basis, lx, ly)
      && (cellX > 0.0 && cellY > 0.0 && c > 0.0 && SitesDiffer(basis) ==>
            && LatticeApart(Views(res.value.0), built)
            && (mode.Orthogonalized? ==>
                  LatticeStands(Views(res.value.0), built, Span(nx, cellX), Span(ny, cellY), Span(nz, c))))
  {
    hide *;
    var atoms, types := BuildWithReplicates(cellX, cellY, skew, mode, c, charges, nx, ny, nz, basis);
    ghost var place := ReplicatePlacement(cellX, cellY, skew, mode, c, charges);
    ghost var cells := GridCells(nx, ny);
    ghost var all := PlaceAll(place, OverLayers(nz, cells, basis));
    ghost var before := Views(atoms);
    ReplicatePlacementKeepsCharge(cellX, cellY, skew, mode, c, charges);
    BuiltSlab(atoms, types, place, nz, cells, basis, charges);
    GridLength(nx, ny);
    ChargeOfLayers(nz, cells, basis, charges);
    ChargedIs(before, nz * |cells|, charges, basis);
    BuiltViews(atoms, types, place, nz, cells, basis);
    GridLattice(before, nx, ny, nz, cellX, cellY, skew, mode, c, charges, basis);
    ghost var chosen, cation;
    res, chosen, cation := FinishSlab(atoms, types, surfacing, lx, ly, charges, choose);
    trace := Trace(before, cells, chosen, cation);
    SizeIs(nz, |cells|, |basis|);
    if res.Success? {
      BuiltIs(res.value, trace, nz * (nx * ny), surfacing, charges, basis, lx, ly, types);
      if cellX > 0.0 && cellY > 0.0 && c > 0.0 && SitesDiffer(basis) {
        ReplicateBuildTheorem(cellX, cellY, skew, mode, c, charges, nx, ny, nz, basis);
        SpanIs(nx, cellX);
        SpanIs(ny, cellY);
        SpanIs(nz, c);
        LatticeKept(surfacing, all, trace, Views(res.value.0), charges, lx, ly, Span(nx, cellX), Span(ny, cellY),
                    Span(nz, c));
      }
    }
  }
}
