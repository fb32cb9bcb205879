/** Where the atoms of a built lattice stand, atom by atom, said without the loops that place them. */
module Lattice {
  import opened Numeric
  import opened Sublattice
  import opened CrystalPlacement

  // Atom number in the order layer, cell, basis atom.
  function AtomIndex(cells: nat, sites: nat, iz: nat, ci: nat, si: nat): nat {
    (iz * cells + ci) * sites + si
  }

  // The atoms of a lattice: layers times cells times basis atoms.
  function LatticeSize(nz: int, cells: int, sites: int): int {
    nz * (cells * sites)
  }

  lemma IndexInside(nz: nat, cells: nat, sites: nat, iz: nat, ci: nat, si: nat)
    requires iz < nz && ci < cells && si < sites
    ensures AtomIndex(cells, sites, iz, ci, si) < LatticeSize(nz, cells, sites)
  {
    var row := iz * cells + ci;
    Below(iz, nz, ci, cells, row);
    Below(row, nz * cells, si, sites, row * sites + si);
    assert nz * cells * sites == nz * (cells * sites);
  }

  lemma Below(i: nat, n: nat, j: nat, k: nat, at: nat)
    requires i < n && j < k && at == i * k + j
    ensures at < n * k
  {
    assert (i + 1) * k <= n * k;
    assert (i + 1) * k == i * k + k;
  }

  // ---------------------------------------------------------------- the order of the loops

  lemma {:induction false} CellsAt(iz: int, cells: seq<Cell>, basis: seq<Site>, ci: nat, si: nat)
    requires ci < |cells| && si < |basis|
    ensures ci * |basis| + si < |OverCells(iz, cells, basis)|
    ensures OverCells(iz, cells, basis)[ci * |basis| + si] == (iz, cells[ci], basis[si])
  {
    var k := |cells| - 1;
    CellsLength(iz, cells, basis);
    CellsLength(iz, cells[..k], basis);
    Below(ci, |cells|, si, |basis|, ci * |basis| + si);
    if ci < k {
      Below(ci, k, si, |basis|, ci * |basis| + si);
      CellsAt(iz, cells[..k], basis, ci, si);
    }
  }

  /** The atom with that index comes from that layer, cell and basis atom. */
  lemma {:induction false} LayersAt(nz: nat, cells: seq<Cell>, basis: seq<Site>, iz: nat, ci: nat, si: nat)
    requires iz < nz && ci < |cells| && si < |basis|
    ensures AtomIndex(|cells|, |basis|, iz, ci, si) < |OverLayers(nz, cells, basis)|
    ensures OverLayers(nz, cells, basis)[AtomIndex(|cells|, |basis|, iz, ci, si)] == (iz, cells[ci], basis[si])
  {
    hide OverCells;
    LayersLength(nz, cells, basis);
    LayersLength(nz - 1, cells, basis);
    IndexInside(nz, |cells|, |basis|, iz, ci, si);
    LayersUnfold(nz, cells, basis);
    hide OverLayers;
    if iz < nz - 1 {
      IndexInside(nz - 1, |cells|, |basis|, iz, ci, si);
      LayersAt(nz - 1, cells, basis, iz, ci, si);
    } else {
      CellsAt(iz, cells, basis, ci, si);
      IndexSplit(iz, |cells|, ci, |basis|, si);
    }
  }

  lemma IndexSplit(iz: nat, cells: nat, ci: nat, sites: nat, si: nat)
    ensures AtomIndex(cells, sites, iz, ci, si) == iz * (cells * sites) + (ci * sites + si)
  {
    assert (iz * cells + ci) * sites == iz * cells * sites + ci * sites;
  }

  // ---------------------------------------------------------------- the transformed build

  // The cells of a supercell as the scan lists them: every one, once, column by column.
  ghost predicate ListsCells(m: Matrix, cells: seq<Cell>) {
    && |cells| == Det(m) && (forall d :: d in cells <==> InCell(m, d))
    && forall i, j :: 0 <= i < j < |cells| ==> ScannedBefore(cells[i], cells[j])
  }

  /** The cells of a supercell are the points whose supercell coordinates lie in [0, 1). */
  lemma CellInside(m: Matrix, d: Cell)
    requires Det(m) > 0
    ensures var u, v := SuperU(m, d.0 as real, d.1 as real), SuperV(m, d.0 as real, d.1 as real);
      InCell(m, d) <==> 0.0 <= u < 1.0 && 0.0 <= v < 1.0
  {
    hide InCell;
    SuperNumerators(m, d.0 as real, d.1 as real);
    NumeratorsAre(m, d);
    hide SuperU, SuperV;
    var det := Det(m) as real;
    UnitInterval(SuperU(m, d.0 as real, d.1 as real), det, UNum(m, d.0, d.1) as real);
    UnitInterval(SuperV(m, d.0 as real, d.1 as real), det, VNum(m, d.0, d.1) as real);
  }

  lemma NumeratorsAre(m: Matrix, d: Cell)
    ensures UNum(m, d.0, d.1) as real == m.s as real * d.0 as real + -(m.r as real) * d.1 as real
    ensures VNum(m, d.0, d.1) as real == -(m.q as real) * d.0 as real + m.p as real * d.1 as real
    ensures InCell(m, d) <==> 0 <= UNum(m, d.0, d.1) < Det(m) && 0 <= VNum(m, d.0, d.1) < Det(m)
  {
    ProductAsReal(m.s, d.0);
    ProductAsReal(m.r, d.1);
    ProductAsReal(m.q, d.0);
    ProductAsReal(m.p, d.1);
  }

  lemma UnitInterval(u: real, d: real, n: real)
    requires d > 0.0 && u * d == n
    ensures 0.0 <= u < 1.0 <==> 0.0 <= n < d
  {
    assert u < 0.0 ==> u * d < 0.0;
    assert u >= 0.0 ==> u * d >= 0.0;
    var e := 1.0 - u;
    assert e * d == d - n;
    assert e > 0.0 ==> e * d > 0.0;
    assert e <= 0.0 ==> e * d <= 0.0;
  }

  // The fractions of a basis atom, shifted to its cell.
  function CrystalX(cell: Cell, site: Site): real {
    cell.0 as real + Frac(site.fx)
  }

  function CrystalY(cell: Cell, site: Site): real {
    cell.1 as real + Frac(site.fy)
  }

  /** The box coordinates (u, v), which lie in [0, 1), times the rows of the supercell give the crystal coordinates of
      the basis atom in its cell, up to k times the first and l times the second row. */
  ghost predicate IsWrapped(m: Matrix, cell: Cell, site: Site, u: real, v: real, k: int, l: int) {
    && 0.0 <= u < 1.0 && 0.0 <= v < 1.0
    && m.p as real * u + m.r as real * v == CrystalX(cell, site) - RowShift(m.p, m.r, k, l) as real
    && m.q as real * u + m.s as real * v == CrystalY(cell, site) - RowShift(m.q, m.s, k, l) as real
  }

  ghost predicate WrapsTo(m: Matrix, cell: Cell, site: Site, u: real, v: real) {
    exists k, l :: IsWrapped(m, cell, site, u, v, k, l)
  }

  // Where a basis atom of a layer and a cell stands in the box.
  ghost predicate StandsInBox(p: Placed, m: Matrix, lx: real, ly: real, c: real, iz: int, cell: Cell, site: Site)
    requires lx != 0.0 && ly != 0.0
  {
    && WrapsTo(m, cell, site, p.x / lx, p.y / ly)
    && p.z == (iz as real + Frac(site.fz)) * c
  }

  // A basis atom keeps its element and gets the charge of the table, or none.
  predicate IsSiteAtom(p: Placed, site: Site, charges: Charges) {
    p.element == site.element && p.charge == ChargeOf(charges, site.element, 0.0)
  }

  /** The lattice of the transformed build: the cells of the supercell in every layer, the basis in every cell. */
  ghost predicate IsMatrixLattice(vs: seq<AtomView>, cells: seq<Cell>, m: Matrix, nz: nat, lx: real, ly: real, c: real,
                                  charges: Charges, basis: seq<Site>)
    requires lx != 0.0 && ly != 0.0
  {
    && ListsCells(m, cells) && |vs| == LatticeSize(nz, |cells|, |basis|)
    && forall iz: nat, ci: nat, si: nat :: iz < nz && ci < |cells| && si < |basis| ==>
         var at := AtomIndex(|cells|, |basis|, iz, ci, si);
         && at < |vs| && IsSiteAtom(vs[at].p, basis[si], charges)
         && StandsInBox(vs[at].p, m, lx, ly, c, iz, cells[ci], basis[si])
  }

  lemma MatrixLattice(vs: seq<AtomView>, cells: seq<Cell>, m: Matrix, nz: nat, lx: real, ly: real, c: real,
                      charges: Charges, basis: seq<Site>)
    requires Det(m) > 0 && lx > 0.0 && ly > 0.0 && ListsCells(m, cells)
    requires var placed := PlaceAll(MatrixPlacement(m, lx, ly, c, charges), OverLayers(nz, cells, basis));
      |vs| == |placed| && forall k :: 0 <= k < |vs| ==> vs[k].p == placed[k]
    ensures IsMatrixLattice(vs, cells, m, nz, lx, ly, c, charges, basis)
  {
    hide ListsCells, MatrixPlacement, OverLayers, StandsInBox, IsSiteAtom, AtomIndex;
    LayersLength(nz, cells, basis);
    forall iz: nat, ci: nat, si: nat | iz < nz && ci < |cells| && si < |basis|
      ensures var at := AtomIndex(|cells|, |basis|, iz, ci, si);
        && at < |vs| && IsSiteAtom(vs[at].p, basis[si], charges)
        && StandsInBox(vs[at].p, m, lx, ly, c, iz, cells[ci], basis[si])
    {
      LayersAt(nz, cells, basis, iz, ci, si);
      PlacedInBox(m, lx, ly, c, charges, iz, cells[ci], basis[si]);
    }
  }

  lemma PlacedInBox(m: Matrix, lx: real, ly: real, c: real, charges: Charges, iz: int, cell: Cell, site: Site)
    requires Det(m) > 0 && lx > 0.0 && ly > 0.0
    ensures var p := At(MatrixPlacement(m, lx, ly, c, charges), (iz, cell, site));
      IsSiteAtom(p, site, charges) && StandsInBox(p, m, lx, ly, c, iz, cell, site)
  {
    hide *;
    PlacedIs(m, lx, ly, c, charges, iz, cell, site);
    var p := At(MatrixPlacement(m, lx, ly, c, charges), (iz, cell, site));
    var x, y := CrystalX(cell, site), CrystalY(cell, site);
    DivideOut(p.x, Frac(SuperU(m, x, y)), lx);
    DivideOut(p.y, Frac(SuperV(m, x, y)), ly);
    WrappedIs(m, cell, site, p.x / lx, p.y / ly, SuperU(m, x, y).Floor, SuperV(m, x, y).Floor);
    StandsIs(p, m, lx, ly, c, iz, cell, site);
  }

  lemma PlacedIs(m: Matrix, lx: real, ly: real, c: real, charges: Charges, iz: int, cell: Cell, site: Site)
    requires Det(m) > 0
    ensures var p := At(MatrixPlacement(m, lx, ly, c, charges), (iz, cell, site));
      var x, y := CrystalX(cell, site), CrystalY(cell, site);
      && p.x == Frac(SuperU(m, x, y)) * lx && p.y == Frac(SuperV(m, x, y)) * ly
      && p.z == (iz as real + Frac(site.fz)) * c && IsSiteAtom(p, site, charges)
  {
    hide SuperU, SuperV, ChargeOf, Numeric.Frac;
  }

  lemma StandsIs(p: Placed, m: Matrix, lx: real, ly: real, c: real, iz: int, cell: Cell, site: Site)
    requires lx != 0.0 && ly != 0.0
    requires WrapsTo(m, cell, site, p.x / lx, p.y / ly) && p.z == (iz as real + Frac(site.fz)) * c
    ensures StandsInBox(p, m, lx, ly, c, iz, cell, site)
  {
    hide WrapsTo;
  }

  lemma DivideOut(x: real, f: real, l: real)
    requires l > 0.0 && x == f * l
    ensures x / l == f
  {
  }

  lemma WrappedIs(m: Matrix, cell: Cell, site: Site, u: real, v: real, k: int, l: int)
    requires Det(m) > 0
    requires var x, y := CrystalX(cell, site), CrystalY(cell, site);
      && u == Frac(SuperU(m, x, y)) && v == Frac(SuperV(m, x, y))
      && k == SuperU(m, x, y).Floor && l == SuperV(m, x, y).Floor
    ensures WrapsTo(m, cell, site, u, v)
  {
    hide SuperU, SuperV, CrystalX, CrystalY;
    var x, y := CrystalX(cell, site), CrystalY(cell, site);
    Reconstruct(m, x, y);
    RowSum(m.p, m.r, k, l, SuperU(m, x, y), SuperV(m, x, y), u, v);
    RowSum(m.q, m.s, k, l, SuperU(m, x, y), SuperV(m, x, y), u, v);
    assert IsWrapped(m, cell, site, u, v, k, l);
  }

  // ---------------------------------------------------------------- the replicate build

  // Row iy, column ix of the grid.
  lemma {:induction false} GridAt(nx: nat, ny: nat, ix: nat, iy: nat)
    requires ix < nx && iy < ny
    ensures iy * nx + ix < |GridCells(nx, ny)| == nx * ny && GridCells(nx, ny)[iy * nx + ix] == (ix, iy)
  {
    hide GridCells;
    GridLength(nx, ny);
    GridLength(nx, iy);
    GridRowAt(nx, ny, ix, iy);
  }

  // A row stands after the rows before it.
  lemma {:induction false} GridRowAt(nx: nat, ny: nat, ix: nat, iy: nat)
    requires ix < nx && iy < ny
    ensures var at := |GridCells(nx, iy)| + ix;
      at < |GridCells(nx, ny)| && GridCells(nx, ny)[at] == (ix, iy)
  {
    if iy < ny - 1 {
      GridRowAt(nx, ny - 1, ix, iy);
    }
  }

  lemma {:induction false} GridLength(nx: nat, ny: nat)
    ensures |GridCells(nx, ny)| == nx * ny
  {
    if ny > 0 {
      GridLength(nx, ny - 1);
      Distribute(ny - 1, 1, nx);
    }
  }

  // Atom number in the order layer, row, column, basis atom.
  function GridIndex(nx: nat, ny: nat, sites: nat, iz: nat, ix: nat, iy: nat, si: nat): nat {
    AtomIndex(nx * ny, sites, iz, iy * nx + ix, si)
  }

  // Where a basis atom of a layer and a grid cell stands; the native mode shears each row along the first edge.
  ghost predicate StandsOnGrid(p: Placed, cellX: real, cellY: real, skew: real, mode: CellMode, c: real, iz: int,
                               cell: Cell, site: Site)
  {
    && p.x == CrystalX(cell, site) * cellX + (if mode.NativeSkew? then CrystalY(cell, site) * skew else 0.0)
    && p.y == CrystalY(cell, site) * cellY
    && p.z == (iz as real + Frac(site.fz)) * c
  }

  /** The lattice of the replicate build: nx times ny cells in every layer, row by row, the basis in every cell. */
  ghost predicate IsGridLattice(vs: seq<AtomView>, nx: nat, ny: nat, nz: nat, cellX: real, cellY: real, skew: real,
                                mode: CellMode, c: real, charges: Charges, basis: seq<Site>)
  {
    && |vs| == LatticeSize(nz, nx * ny, |basis|)
    && forall iz: nat, ix: nat, iy: nat, si: nat :: iz < nz && ix < nx && iy < ny && si < |basis| ==>
         var at := GridIndex(nx, ny, |basis|, iz, ix, iy, si);
         && at < |vs| && IsSiteAtom(vs[at].p, basis[si], charges)
         && StandsOnGrid(vs[at].p, cellX, cellY, skew, mode, c, iz, (ix, iy), basis[si])
  }

  lemma GridLattice(vs: seq<AtomView>, nx: nat, ny: nat, nz: nat, cellX: real, cellY: real, skew: real, mode: CellMode,
                    c: real, charges: Charges, basis: seq<Site>)
    requires var place := ReplicatePlacement(cellX, cellY, skew, mode, c, charges);
      var placed := PlaceAll(place, OverLayers(nz, GridCells(nx, ny), basis));
      |vs| == |placed| && forall k :: 0 <= k < |vs| ==> vs[k].p == placed[k]
    ensures IsGridLattice(vs, nx, ny, nz, cellX, cellY, skew, mode, c, charges, basis)
  {
    hide ReplicatePlacement, OverLayers, StandsOnGrid, IsSiteAtom, AtomIndex, GridCells, LatticeSize;
    var cells := GridCells(nx, ny);
    GridLength(nx, ny);
    LayersLength(nz, cells, basis);
    SizeIs(nz, |cells|, |basis|);
    forall iz: nat, ix: nat, iy: nat, si: nat | iz < nz && ix < nx && iy < ny && si < |basis|
      ensures var at := GridIndex(nx, ny, |basis|, iz, ix, iy, si);
        && at < |vs| && IsSiteAtom(vs[at].p, basis[si], charges)
        && StandsOnGrid(vs[at].p, cellX, cellY, skew, mode, c, iz, (ix, iy), basis[si])
    {
      GridAt(nx, ny, ix, iy);
      LayersAt(nz, cells, basis, iz, iy * nx + ix, si);
      PlacedOnGrid(cellX, cellY, skew, mode, c, charges, iz, (ix, iy), basis[si]);
    }
  }

  lemma SizeIs(nz: nat, cells: nat, sites: nat)
    ensures LatticeSize(nz, cells, sites) == nz * (cells * sites)
  {
  }

  lemma PlacedOnGrid(cellX: real, cellY: real, skew: real, mode: CellMode, c: real, charges: Charges, iz: int,
                     cell: Cell, site: Site)
    ensures var p := At(ReplicatePlacement(cellX, cellY, skew, mode, c, charges), (iz, cell, site));
      IsSiteAtom(p, site, charges) && StandsOnGrid(p, cellX, cellY, skew, mode, c, iz, cell, site)
  {
    hide ChargeOf;
  }
}
