/** Placing the atoms of a unit cell over a supercell: the transformed (matrix) build and the plain replicate build. */
module CrystalPlacement {
  import opened Common
  import opened Numeric
  import opened Sublattice
  import opened SupercellSearch

  /** An atom of the slab; later passes rewrite its element, type and charge in place. */
  class Atom {
    var id: int
    var kind: int
    var x: real
    var y: real
    var z: real
    var element: string
    var charge: real

    constructor (id: int, kind: int, p: Placed)
      ensures View() == AtomView(id, kind, p)
    {
      this.id, this.kind := id, kind;
      x, y, z, element, charge := p.x, p.y, p.z, p.element, p.charge;
    }

    function View(): AtomView
      reads this
    {
      AtomView(id, kind, Placed(element, x, y, z, charge))
    }
  }

  datatype Placed = Placed(element: string, x: real, y: real, z: real, charge: real)

  datatype AtomView = AtomView(id: int, kind: int, p: Placed)

  // A basis atom: element and fractional coordinates.
  datatype Site = Site(element: string, fx: real, fy: real, fz: real)

  type Placement = (int, Cell, Site) -> Placed

  type Charges = seq<(string, real)>

  // dict.get on a table in insertion order.
  function ChargeOf(charges: Charges, element: string, default: real): real {
    if charges == [] then default
    else if charges[0].0 == element then charges[0].1
    else ChargeOf(charges[1..], element, default)
  }

  predicate HasCharge(charges: Charges, element: string) {
    exists k :: 0 <= k < |charges| && charges[k].0 == element
  }

  // ---------------------------------------------------------------- the enumeration

  // Where an atom comes from: layer, cell and basis atom.
  type Origin = (int, Cell, Site)

  ghost function OverSites(iz: int, cell: Cell, basis: seq<Site>): (s: seq<Origin>) {
    seq(|basis|, k requires 0 <= k < |basis| => (iz, cell, basis[k]))
  }

  ghost function OverCells(iz: int, cells: seq<Cell>, basis: seq<Site>): seq<Origin> {
    if cells == [] then []
    else
      var k := |cells| - 1;
      OverCells(iz, cells[..k], basis) + OverSites(iz, cells[k], basis)
  }

  /** The origins of all atoms: layer by layer, cell by cell, basis atom by basis atom. */
  ghost function OverLayers(nz: nat, cells: seq<Cell>, basis: seq<Site>): seq<Origin> {
    if nz == 0 then [] else OverLayers(nz - 1, cells, basis) + OverCells(nz - 1, cells, basis)
  }

  function At(place: Placement, o: Origin): Placed {
    place(o.0, o.1, o.2)
  }

  ghost function PlaceAll(place: Placement, origins: seq<Origin>): (s: seq<Placed>)
    ensures |s| == |origins|
    ensures forall k :: 0 <= k < |s| ==> s[k] == At(place, origins[k])
  {
    seq(|origins|, k requires 0 <= k < |origins| => At(place, origins[k]))
  }

  lemma {:induction false} CellsLength(iz: int, cells: seq<Cell>, basis: seq<Site>)
    ensures |OverCells(iz, cells, basis)| == |cells| * |basis|
  {
    if cells != [] {
      CellsLength(iz, cells[..|cells| - 1], basis);
      Distribute(|cells| - 1, 1, |basis|);
    }
  }

  /** nz * |cells| * |basis| atoms in all. */
  lemma {:induction false} LayersLength(nz: nat, cells: seq<Cell>, basis: seq<Site>)
    ensures |OverLayers(nz, cells, basis)| == nz * (|cells| * |basis|)
  {
    if nz > 0 {
      LayersLength(nz - 1, cells, basis);
      CellsLength(nz - 1, cells, basis);
      Distribute(nz - 1, 1, |cells| * |basis|);
    }
  }

  lemma {:induction false} CellsOrigins(iz: int, cells: seq<Cell>, basis: seq<Site>)
    ensures forall o :: o in OverCells(iz, cells, basis) ==> o.0 == iz && o.1 in cells && o.2 in basis
    ensures Distinct(cells) && Distinct(basis) ==> Distinct(OverCells(iz, cells, basis))
  {
    if cells != [] {
      CellsOrigins(iz, cells[..|cells| - 1], basis);
    }
  }

  lemma LayersUnfold(nz: nat, cells: seq<Cell>, basis: seq<Site>)
    ensures nz == 0 ==> OverLayers(nz, cells, basis) == []
    ensures nz > 0 ==>
      OverLayers(nz, cells, basis) == OverLayers(nz - 1, cells, basis) + OverCells(nz - 1, cells, basis)
  {
  }

  /** Every atom comes from a layer, a cell and a basis atom, and no two from the same ones. */
  lemma {:induction false} LayersOrigins(nz: nat, cells: seq<Cell>, basis: seq<Site>)
    ensures forall o :: o in OverLayers(nz, cells, basis) ==> 0 <= o.0 < nz && o.1 in cells && o.2 in basis
    ensures Distinct(cells) && Distinct(basis) ==> Distinct(OverLayers(nz, cells, basis))
  {
    hide OverLayers, OverCells, Common.Distinct;
    LayersUnfold(nz, cells, basis);
    if nz > 0 {
      LayersOrigins(nz - 1, cells, basis);
      CellsOrigins(nz - 1, cells, basis);
      if Distinct(cells) && Distinct(basis) {
        DistinctAppend(OverLayers(nz - 1, cells, basis), OverCells(nz - 1, cells, basis));
      }
    } else {
      DistinctEmpty<Origin>();
    }
  }

  // ---------------------------------------------------------------- the two placements

  // Fractional coordinates of crystal point (x, y) in the supercell basis: coeff_inv applied to (x, y).
  function SuperU(m: Matrix, x: real, y: real): real
    requires Det(m) > 0
  {
    (m.s as real * x - m.r as real * y) / Det(m) as real
  }

  function SuperV(m: Matrix, x: real, y: real): real
    requires Det(m) > 0
  {
    (-(m.q as real) * x + m.p as real * y) / Det(m) as real
  }

  // The placement of the transformed build, wrapped into the rectangle.
  function MatrixPlacement(m: Matrix, lx: real, ly: real, c: real, charges: Charges): Placement
    requires Det(m) > 0
  {
    (iz: int, cell: Cell, site: Site) =>
      var x := cell.0 as real + Frac(site.fx);
      var y := cell.1 as real + Frac(site.fy);
      Placed(site.element, Frac(SuperU(m, x, y)) * lx, Frac(SuperV(m, x, y)) * ly, (iz as real + Frac(site.fz)) * c,
             ChargeOf(charges, site.element, 0.0))
  }

  datatype CellMode = NativeSkew | Orthogonalized

  // The placement of the replicate build: cellX is a, cellY is b * sin(gamma), skew is b * cos(gamma).
  function ReplicatePlacement(cellX: real, cellY: real, skew: real, mode: CellMode, c: real,
                              charges: Charges): Placement {
    (iz: int, cell: Cell, site: Site) =>
      var x := cell.0 as real + Frac(site.fx);
      var y := cell.1 as real + Frac(site.fy);
      Placed(site.element, if mode.NativeSkew? then x * cellX + y * skew else x * cellX, y * cellY,
             (iz as real + Frac(site.fz)) * c, ChargeOf(charges, site.element, 0.0))
  }

  // The order in which the replicate build visits cells: y outermost.
  function GridRow(nx: nat, iy: int): (cells: seq<Cell>)
    ensures |cells| == nx && forall k :: 0 <= k < nx ==> cells[k] == (k, iy)
  {
    if nx == 0 then [] else GridRow(nx - 1, iy) + [(nx - 1, iy)]
  }

  function GridCells(nx: nat, ny: nat): seq<Cell> {
    if ny == 0 then [] else GridCells(nx, ny - 1) + GridRow(nx, ny - 1)
  }

  // ---------------------------------------------------------------- geometry of the transformed build

  // The supercell coordinates, times the rows, give back the crystal coordinates.
  lemma Reconstruct(m: Matrix, x: real, y: real)
    requires Det(m) > 0
    ensures var u, v := SuperU(m, x, y), SuperV(m, x, y);
      m.p as real * u + m.r as real * v == x && m.q as real * u + m.s as real * v == y
  {
    hide *;
    SuperNumerators(m, x, y);
    ReconstructCore(m.p as real, m.q as real, m.r as real, m.s as real, Det(m) as real, x, y,
                    SuperU(m, x, y), SuperV(m, x, y));
  }

  lemma SuperNumerators(m: Matrix, x: real, y: real)
    requires Det(m) > 0
    ensures SuperU(m, x, y) * Det(m) as real == m.s as real * x + -(m.r as real) * y
    ensures SuperV(m, x, y) * Det(m) as real == -(m.q as real) * x + m.p as real * y
    ensures Det(m) as real == m.p as real * m.s as real - m.q as real * m.r as real
  {
    var n, k := m.s as real * x - m.r as real * y, -(m.q as real) * x + m.p as real * y;
    DivideBack(n, Det(m) as real);
    DivideBack(k, Det(m) as real);
  }

  lemma DivideBack(n: real, d: real)
    requires d > 0.0
    ensures (n / d) * d == n
  {
  }

  lemma ReconstructCore(p: real, q: real, r: real, s: real, d: real, x: real, y: real, u: real, v: real)
    requires d > 0.0 && d == p * s - q * r
    requires u * d == s * x + -r * y && v * d == -q * x + p * y
    ensures p * u + r * v == x && q * u + s * v == y
  {
    var e := p * u + r * v - x;
    var f := q * u + s * v - y;
    calc {
      e * d;
      p * (u * d) + r * (v * d) - x * d;
      p * (s * x - r * y) + r * (-q * x + p * y) - x * d;
      (p * s) * x - (p * r) * y - (q * r) * x + (p * r) * y - x * d;
      (p * s - q * r) * x - x * d;
      0.0;
    }
    calc {
      f * d;
      q * (u * d) + s * (v * d) - y * d;
      q * (s * x - r * y) + s * (-q * x + p * y) - y * d;
      (q * s) * x - (q * r) * y - (q * s) * x + (p * s) * y - y * d;
      (p * s - q * r) * y - y * d;
      0.0;
    }
    ZeroProduct(e, d);
    ZeroProduct(f, d);
  }

  lemma ZeroProduct(e: real, d: real)
    requires d > 0.0 && e * d == 0.0
    ensures e == 0.0
  {
  }

  /** Two atoms of the transformed build at the same place are the same basis atom of the same cell and layer. */
  lemma MatrixPlacementInjective(m: Matrix, lx: real, ly: real, c: real, charges: Charges,
                                 iz: int, cell: Cell, site: Site, iz': int, cell': Cell, site': Site)
    requires Det(m) > 0 && lx > 0.0 && ly > 0.0 && c > 0.0
    requires InCell(m, cell) && InCell(m, cell')
    requires var place := MatrixPlacement(m, lx, ly, c, charges);
      SamePosition(place(iz, cell, site), place(iz', cell', site'))
    ensures iz == iz' && cell == cell' && SameFraction(site, site')
  {
    hide *;
    PositionFacts(m, lx, ly, c, charges, iz, cell, site, iz', cell', site');
    var x, y := cell.0 as real + Frac(site.fx), cell.1 as real + Frac(site.fy);
    var x', y' := cell'.0 as real + Frac(site'.fx), cell'.1 as real + Frac(site'.fy);
    FracEqual(SuperU(m, x, y), SuperU(m, x', y'));
    FracEqual(SuperV(m, x, y), SuperV(m, x', y'));
    var k := SuperU(m, x, y).Floor - SuperU(m, x', y').Floor;
    var l := SuperV(m, x, y).Floor - SuperV(m, x', y').Floor;
    Reconstruct(m, x, y);
    Reconstruct(m, x', y');
    RowSplit(m.p, m.r, k, l, SuperU(m, x, y), SuperV(m, x, y), SuperU(m, x', y'), SuperV(m, x', y'),
             cell.0, Frac(site.fx), cell'.0, Frac(site'.fx));
    RowSplit(m.q, m.s, k, l, SuperU(m, x, y), SuperV(m, x, y), SuperU(m, x', y'), SuperV(m, x', y'),
             cell.1, Frac(site.fy), cell'.1, Frac(site'.fy));
    SplitInteger(iz, Frac(site.fz), iz', Frac(site'.fz), 0);
    ShiftedBy(m, cell', cell, k, l);
    InCellUnique(m, cell', cell);
    FractionsAgree(site, site');
  }

  predicate SamePosition(a: Placed, b: Placed) {
    a.x == b.x && a.y == b.y && a.z == b.z
  }

  predicate SameFraction(a: Site, b: Site) {
    Frac(a.fx) == Frac(b.fx) && Frac(a.fy) == Frac(b.fy) && Frac(a.fz) == Frac(b.fz)
  }

  lemma FractionsAgree(a: Site, b: Site)
    requires Frac(a.fx) == Frac(b.fx) && Frac(a.fy) == Frac(b.fy) && Frac(a.fz) == Frac(b.fz)
    ensures SameFraction(a, b)
  {
  }

  // One coordinate of k copies of the first row and l copies of the second.
  function RowShift(p: int, r: int, k: int, l: int): int {
    p * k + r * l
  }

  lemma ShiftedBy(m: Matrix, d: Cell, e: Cell, k: int, l: int)
    requires e.0 - d.0 == RowShift(m.p, m.r, k, l) && e.1 - d.1 == RowShift(m.q, m.s, k, l)
    ensures Congruent(m, d, e)
  {
    assert e == Shift(m, d, k, l);
  }

  lemma PositionFacts(m: Matrix, lx: real, ly: real, c: real, charges: Charges,
                      iz: int, cell: Cell, site: Site, iz': int, cell': Cell, site': Site)
    requires Det(m) > 0 && lx > 0.0 && ly > 0.0 && c > 0.0
    requires var place := MatrixPlacement(m, lx, ly, c, charges);
      SamePosition(place(iz, cell, site), place(iz', cell', site'))
    ensures var x, y := cell.0 as real + Frac(site.fx), cell.1 as real + Frac(site.fy);
      var x', y' := cell'.0 as real + Frac(site'.fx), cell'.1 as real + Frac(site'.fy);
      && Frac(SuperU(m, x, y)) == Frac(SuperU(m, x', y'))
      && Frac(SuperV(m, x, y)) == Frac(SuperV(m, x', y'))
      && iz as real + Frac(site.fz) == iz' as real + Frac(site'.fz)
  {
    hide SuperU, SuperV, Numeric.Frac;
    var x, y := cell.0 as real + Frac(site.fx), cell.1 as real + Frac(site.fy);
    var x', y' := cell'.0 as real + Frac(site'.fx), cell'.1 as real + Frac(site'.fy);
    CancelFactor(Frac(SuperU(m, x, y)), Frac(SuperU(m, x', y')), lx);
    CancelFactor(Frac(SuperV(m, x, y)), Frac(SuperV(m, x', y')), ly);
    CancelFactor(iz as real + Frac(site.fz), iz' as real + Frac(site'.fz), c);
  }

  lemma CancelFactor(x: real, y: real, z: real)
    requires z > 0.0
    ensures x * z == y * z ==> x == y
  {
    assert (x - y) * z == x * z - y * z;
    if x * z == y * z {
      ZeroProduct(x - y, z);
    }
  }

  lemma RowSum(p: int, r: int, k: int, l: int, u: real, v: real, u': real, v': real)
    requires u - u' == k as real && v - v' == l as real
    ensures (p as real * u + r as real * v) - (p as real * u' + r as real * v') == RowShift(p, r, k, l) as real
  {
    assert (p * k + r * l) as real == p as real * k as real + r as real * l as real;
    assert p as real * u - p as real * u' == p as real * k as real;
    assert r as real * v - r as real * v' == r as real * l as real;
  }

  // Integer parts and fractional parts of equal-up-to-an-integer sums.
  lemma SplitInteger(i: int, f: real, j: int, g: real, n: int)
    requires 0.0 <= f < 1.0 && 0.0 <= g < 1.0
    requires (i as real + f) - (j as real + g) == n as real
    ensures f == g && i - j == n
  {
    UnitIntervalUnique(f, g, n - i + j);
  }

  // Two points that are whole rows apart: their fractional parts agree, their integer parts differ by the rows.
  lemma RowSplit(p: int, r: int, k: int, l: int, u: real, v: real, u': real, v': real,
                 i: int, f: real, j: int, g: real)
    requires 0.0 <= f < 1.0 && 0.0 <= g < 1.0
    requires u - u' == k as real && v - v' == l as real
    requires p as real * u + r as real * v == i as real + f
    requires p as real * u' + r as real * v' == j as real + g
    ensures f == g && i - j == RowShift(p, r, k, l)
  {
    RowSum(p, r, k, l, u, v, u', v');
    hide *;
    SplitInteger(i, f, j, g, RowShift(p, r, k, l));
  }

  // No two sites of the basis are translates of each other.
  ghost predicate SitesDiffer(basis: seq<Site>) {
    forall i, j :: 0 <= i < j < |basis| ==> !SameFraction(basis[i], basis[j])
  }

  ghost predicate InBox(atoms: seq<Placed>, lx: real, ly: real, lz: real) {
    forall k :: 0 <= k < |atoms| ==>
      0.0 <= atoms[k].x < lx && 0.0 <= atoms[k].y < ly && 0.0 <= atoms[k].z < lz
  }

  ghost predicate Apart(atoms: seq<Placed>) {
    forall i, j :: 0 <= i < j < |atoms| ==> !SamePosition(atoms[i], atoms[j])
  }

  // On these cells, the place of an atom tells its layer, its cell and its basis atom.
  ghost predicate TellsOrigin(place: Placement, cells: seq<Cell>) {
    forall iz, cell, site, iz', cell', site' ::
      cell in cells && cell' in cells && SamePosition(place(iz, cell, site), place(iz', cell', site')) ==>
        iz == iz' && cell == cell' && SameFraction(site, site')
  }

  lemma PlacedApart(place: Placement, nz: nat, cells: seq<Cell>, basis: seq<Site>)
    requires TellsOrigin(place, cells) && Distinct(cells) && SitesDiffer(basis)
    ensures Apart(PlaceAll(place, OverLayers(nz, cells, basis)))
  {
    hide SameFraction, OverLayers;
    var origins := OverLayers(nz, cells, basis);
    var atoms := PlaceAll(place, origins);
    LayersOrigins(nz, cells, basis);
    DistinctSites(basis);
    forall i, j | 0 <= i < j < |atoms|
      ensures !SamePosition(atoms[i], atoms[j])
    {
      var a, b := origins[i], origins[j];
      assert a in origins && b in origins;
      if SamePosition(atoms[i], atoms[j]) {
        assert SamePosition(place(a.0, a.1, a.2), place(b.0, b.1, b.2));
        SameFractionSameSite(basis, a.2, b.2);
      }
    }
  }

  /** The transformed build: exactly det * nz * |basis| atoms, all inside the rectangle, at pairwise different places
      when the basis atoms are different modulo the lattice. */
  lemma MatrixBuildTheorem(m: Matrix, cells: seq<Cell>, nz: nat, lx: real, ly: real, c: real, charges: Charges,
                           basis: seq<Site>)
    requires Det(m) > 0 && lx > 0.0 && ly > 0.0 && c > 0.0
    requires |cells| == Det(m) && Distinct(cells) && forall d :: d in cells <==> InCell(m, d)
    requires SitesDiffer(basis)
    ensures var atoms := PlaceAll(MatrixPlacement(m, lx, ly, c, charges), OverLayers(nz, cells, basis));
      |atoms| == nz * (Det(m) * |basis|) && InBox(atoms, lx, ly, nz as real * c) && Apart(atoms)
  {
    hide InCell, OverLayers, SitesDiffer, Apart, SamePosition, SameFraction, MatrixPlacement;
    var place := MatrixPlacement(m, lx, ly, c, charges);
    var origins := OverLayers(nz, cells, basis);
    var atoms := PlaceAll(place, origins);
    LayersLength(nz, cells, basis);
    LayersOrigins(nz, cells, basis);
    forall k | 0 <= k < |atoms|
      ensures 0.0 <= atoms[k].x < lx && 0.0 <= atoms[k].y < ly && 0.0 <= atoms[k].z < nz as real * c
    {
      assert origins[k] in origins;
      InsideBox(m, lx, ly, c, charges, nz, origins[k]);
    }
    forall iz, cell, site, iz', cell', site' | cell in cells && cell' in cells
        && SamePosition(place(iz, cell, site), place(iz', cell', site'))
      ensures iz == iz' && cell == cell' && SameFraction(site, site')
    {
      MatrixPlacementInjective(m, lx, ly, c, charges, iz, cell, site, iz', cell', site');
    }
    PlacedApart(place, nz, cells, basis);
  }

  /** The replicate build, in both cell modes: pairwise different places; orthogonalized, all inside the box. */
  lemma ReplicateBuildTheorem(cellX: real, cellY: real, skew: real, mode: CellMode, c: real, charges: Charges,
                              nx: nat, ny: nat, nz: nat, basis: seq<Site>)
    requires cellX > 0.0 && cellY > 0.0 && c > 0.0 && SitesDiffer(basis)
    ensures var place := ReplicatePlacement(cellX, cellY, skew, mode, c, charges);
      var atoms := PlaceAll(place, OverLayers(nz, GridCells(nx, ny), basis));
      && Apart(atoms)
      && (mode.Orthogonalized? ==> InBox(atoms, nx as real * cellX, ny as real * cellY, nz as real * c))
  {
    hide OverLayers, SitesDiffer, Apart, SamePosition, SameFraction, ReplicatePlacement, GridCells;
    var place := ReplicatePlacement(cellX, cellY, skew, mode, c, charges);
    var cells := GridCells(nx, ny);
    var origins := OverLayers(nz, cells, basis);
    var atoms := PlaceAll(place, origins);
    LayersOrigins(nz, cells, basis);
    GridCellsListing(nx, ny);
    forall iz, cell, site, iz', cell', site' | cell in cells && cell' in cells
        && SamePosition(place(iz, cell, site), place(iz', cell', site'))
      ensures iz == iz' && cell == cell' && SameFraction(site, site')
    {
      ReplicateInjective(cellX, cellY, skew, mode, c, charges, iz, cell, site, iz', cell', site');
    }
    PlacedApart(place, nz, cells, basis);
    if mode.Orthogonalized? {
      forall k | 0 <= k < |atoms|
        ensures && 0.0 <= atoms[k].x < nx as real * cellX && 0.0 <= atoms[k].y < ny as real * cellY
                && 0.0 <= atoms[k].z < nz as real * c
      {
        assert origins[k] in origins;
        InsideGrid(cellX, cellY, skew, c, charges, nx, ny, nz, origins[k]);
      }
    }
  }

  lemma ReplicateInjective(cellX: real, cellY: real, skew: real, mode: CellMode, c: real, charges: Charges,
                           iz: int, cell: Cell, site: Site, iz': int, cell': Cell, site': Site)
    requires cellX > 0.0 && cellY > 0.0 && c > 0.0
    requires var place := ReplicatePlacement(cellX, cellY, skew, mode, c, charges);
      SamePosition(place(iz, cell, site), place(iz', cell', site'))
    ensures iz == iz' && cell == cell' && SameFraction(site, site')
  {
    hide *;
    ReplicateFacts(cellX, cellY, skew, mode, c, charges, iz, cell, site, iz', cell', site');
    SplitInteger(iz, Frac(site.fz), iz', Frac(site'.fz), 0);
    SplitInteger(cell.1, Frac(site.fy), cell'.1, Frac(site'.fy), 0);
    SplitInteger(cell.0, Frac(site.fx), cell'.0, Frac(site'.fx), 0);
    FractionsAgree(site, site');
  }

  lemma ReplicateFacts(cellX: real, cellY: real, skew: real, mode: CellMode, c: real, charges: Charges,
                       iz: int, cell: Cell, site: Site, iz': int, cell': Cell, site': Site)
    requires cellX > 0.0 && cellY > 0.0 && c > 0.0
    requires var place := ReplicatePlacement(cellX, cellY, skew, mode, c, charges);
      SamePosition(place(iz, cell, site), place(iz', cell', site'))
    ensures cell.0 as real + Frac(site.fx) == cell'.0 as real + Frac(site'.fx)
    ensures cell.1 as real + Frac(site.fy) == cell'.1 as real + Frac(site'.fy)
    ensures iz as real + Frac(site.fz) == iz' as real + Frac(site'.fz)
  {
    hide Numeric.Frac;
    var x, y := cell.0 as real + Frac(site.fx), cell.1 as real + Frac(site.fy);
    var x', y' := cell'.0 as real + Frac(site'.fx), cell'.1 as real + Frac(site'.fy);
    CancelFactor(iz as real + Frac(site.fz), iz' as real + Frac(site'.fz), c);
    CancelFactor(y, y', cellY);
    CancelFactor(x, x', cellX);
  }

  lemma InsideGrid(cellX: real, cellY: real, skew: real, c: real, charges: Charges, nx: nat, ny: nat, nz: nat,
                   o: Origin)
    requires cellX > 0.0 && cellY > 0.0 && c > 0.0
    requires 0 <= o.0 < nz && 0 <= o.1.0 < nx && 0 <= o.1.1 < ny
    ensures var p := ReplicatePlacement(cellX, cellY, skew, Orthogonalized, c, charges)(o.0, o.1, o.2);
      0.0 <= p.x < nx as real * cellX && 0.0 <= p.y < ny as real * cellY && 0.0 <= p.z < nz as real * c
  {
    hide Numeric.Frac;
    ScaleUnit(o.1.0 as real + Frac(o.2.fx), nx as real, cellX);
    ScaleUnit(o.1.1 as real + Frac(o.2.fy), ny as real, cellY);
    ScaleUnit(o.0 as real + Frac(o.2.fz), nz as real, c);
  }

  lemma DistinctSites(basis: seq<Site>)
    requires SitesDiffer(basis)
    ensures Distinct(basis)
  {
  }

  lemma SameFractionSameSite(basis: seq<Site>, a: Site, b: Site)
    requires SitesDiffer(basis)
    requires a in basis && b in basis && SameFraction(a, b)
    ensures a == b
  {
  }

  lemma InsideBox(m: Matrix, lx: real, ly: real, c: real, charges: Charges, nz: nat, o: Origin)
    requires Det(m) > 0 && lx > 0.0 && ly > 0.0 && c > 0.0 && 0 <= o.0 < nz
    ensures var p := MatrixPlacement(m, lx, ly, c, charges)(o.0, o.1, o.2);
      0.0 <= p.x < lx && 0.0 <= p.y < ly && 0.0 <= p.z < nz as real * c
  {
    hide SuperU, SuperV, Numeric.Frac;
    var x, y := o.1.0 as real + Frac(o.2.fx), o.1.1 as real + Frac(o.2.fy);
    ScaleUnit(Frac(SuperU(m, x, y)), 1.0, lx);
    ScaleUnit(Frac(SuperV(m, x, y)), 1.0, ly);
    ScaleUnit(o.0 as real + Frac(o.2.fz), nz as real, c);
  }

  lemma ScaleUnit(f: real, top: real, l: real)
    requires 0.0 <= f < top && l > 0.0
    ensures 0.0 <= f * l < top * l
  {
    assert (top - f) * l == top * l - f * l;
  }

  // ---------------------------------------------------------------- the transformed build keeps distances

  // Cartesian components of crystal coordinates (x, y).
  function CartX(w: Search, x: real, y: real): real {
    x * w.a + y * (w.b * w.cosG)
  }

  function CartY(w: Search, y: real): real {
    y * (w.b * w.sinG)
  }

  lemma IsometryCore(a: real, bx: real, bz: real, p: real, q: real, r: real, s: real, u: real, v: real,
                     x: real, y: real, ux: real, uy: real, vx: real, vy: real)
    requires x == p * u + r * v && y == q * u + s * v
    requires ux == p * a + q * bx && uy == q * bz && vx == r * a + s * bx && vy == s * bz
    ensures x * a + y * bx == u * ux + v * vx
    ensures y * bz == u * uy + v * vy
  {
    assert x * a == (p * a) * u + (r * a) * v;
    assert y * bx == (q * bx) * u + (s * bx) * v;
    assert u * ux == (p * a) * u + (q * bx) * u;
    assert v * vx == (r * a) * v + (s * bx) * v;
    assert y * bz == (q * bz) * u + (s * bz) * v;
  }

  lemma NormCore(u: real, v: real, ux: real, uy: real, vx: real, vy: real, lu: real, lv: real, dot: real, ex: real,
                 ey: real)
    requires lu * lu == ux * ux + uy * uy && lv * lv == vx * vx + vy * vy && dot == ux * vx + uy * vy
    requires ex == u * ux + v * vx && ey == u * uy + v * vy
    ensures ex * ex + ey * ey == (u * lu) * (u * lu) + (v * lv) * (v * lv) + 2.0 * ((u * v) * dot)
  {
    assert ex * ex == (u * u) * (ux * ux) + 2.0 * ((u * v) * (ux * vx)) + (v * v) * (vx * vx);
    assert ey * ey == (u * u) * (uy * uy) + 2.0 * ((u * v) * (uy * vy)) + (v * v) * (vy * vy);
    assert (u * lu) * (u * lu) == (u * u) * (ux * ux + uy * uy);
    assert (v * lv) * (v * lv) == (v * v) * (vx * vx + vy * vy);
    assert (u * v) * dot == (u * v) * (ux * vx) + (u * v) * (uy * vy);
  }

  lemma CandidateComponents(w: Search, p: int, q: int)
    ensures w.CandidateAt(p, q).x == p as real * w.a + q as real * (w.b * w.cosG)
    ensures w.CandidateAt(p, q).y == q as real * (w.b * w.sinG)
  {
  }

  lemma CartOf(w: Search, x: real, y: real)
    ensures CartX(w, x, y) == x * w.a + y * (w.b * w.cosG)
    ensures CartY(w, y) == y * (w.b * w.sinG)
  {
  }

  // The Cartesian components, written in the supercell rows.
  lemma CartInRows(w: Search, m: Matrix, x: real, y: real)
    requires Det(m) > 0
    ensures var e, f := w.CandidateAt(m.p, m.q), w.CandidateAt(m.r, m.s);
      var u, v := SuperU(m, x, y), SuperV(m, x, y);
      CartX(w, x, y) == u * e.x + v * f.x && CartY(w, y) == u * e.y + v * f.y
  {
    hide *;
    var e, f := w.CandidateAt(m.p, m.q), w.CandidateAt(m.r, m.s);
    Reconstruct(m, x, y);
    CandidateComponents(w, m.p, m.q);
    CandidateComponents(w, m.r, m.s);
    CartOf(w, x, y);
    IsometryCore(w.a, w.b * w.cosG, w.b * w.sinG, m.p as real, m.q as real, m.r as real, m.s as real,
                 SuperU(m, x, y), SuperV(m, x, y), x, y, e.x, e.y, f.x, f.y);
  }

  /** Replacing the two rows by the edges of a rectangle changes a squared distance only by the dot product of the
      rows: an exactly orthogonal supercell is built without distortion. */
  lemma MatrixMapIsometry(w: Search, m: Matrix, x: real, y: real)
    requires w.WellFormed() && Det(m) > 0
    ensures var e, f := w.CandidateAt(m.p, m.q), w.CandidateAt(m.r, m.s);
      var u, v := SuperU(m, x, y), SuperV(m, x, y);
      CartX(w, x, y) * CartX(w, x, y) + CartY(w, y) * CartY(w, y)
        == (u * e.len) * (u * e.len) + (v * f.len) * (v * f.len) + 2.0 * ((u * v) * w.Dot(e, f))
  {
    hide *;
    var e, f := w.CandidateAt(m.p, m.q), w.CandidateAt(m.r, m.s);
    CartInRows(w, m, x, y);
    LengthOf(w, m.p, m.q);
    LengthOf(w, m.r, m.s);
    ProductsOf(w, e, f);
    NormCore(SuperU(m, x, y), SuperV(m, x, y), e.x, e.y, f.x, f.y, e.len, f.len, w.Dot(e, f), CartX(w, x, y),
             CartY(w, y));
  }

  // Supercell coordinates of a difference, minus whole rows.
  lemma SuperLinear(m: Matrix, x: real, y: real, x': real, y': real, k: int, l: int)
    requires Det(m) > 0
    ensures var cx, cy := x - x' - (k * m.p + l * m.r) as real, y - y' - (k * m.q + l * m.s) as real;
      && SuperU(m, cx, cy) == SuperU(m, x, y) - SuperU(m, x', y') - k as real
      && SuperV(m, cx, cy) == SuperV(m, x, y) - SuperV(m, x', y') - l as real
  {
    hide *;
    NumeratorsAsReals(m, k, l);
    ShiftedCoordinates(m, x, y, x', y', (k * m.p + l * m.r) as real, (k * m.q + l * m.s) as real, k as real, l as real);
  }

  lemma ShiftedCoordinates(m: Matrix, x: real, y: real, x': real, y': real, kx: real, ky: real, k: real, l: real)
    requires Det(m) > 0
    requires m.s as real * kx + -(m.r as real) * ky == k * Det(m) as real
    requires -(m.q as real) * kx + m.p as real * ky == l * Det(m) as real
    ensures var cx, cy := x - x' - kx, y - y' - ky;
      && SuperU(m, cx, cy) == SuperU(m, x, y) - SuperU(m, x', y') - k
      && SuperV(m, cx, cy) == SuperV(m, x, y) - SuperV(m, x', y') - l
  {
    hide *;
    ShiftedU(m, x, y, x', y', kx, ky, k, x - x' - kx, y - y' - ky, m.s as real, -(m.r as real), Det(m) as real);
    ShiftedV(m, x, y, x', y', kx, ky, l, x - x' - kx, y - y' - ky, -(m.q as real), m.p as real, Det(m) as real);
  }

  lemma ShiftedU(m: Matrix, x: real, y: real, x': real, y': real, kx: real, ky: real, k: real, cx: real, cy: real,
                 f: real, g: real, d: real)
    requires Det(m) > 0 && f == m.s as real && g == -(m.r as real) && d == Det(m) as real
    requires cx == x - x' - kx && cy == y - y' - ky && f * kx + g * ky == k * d
    ensures SuperU(m, cx, cy) == SuperU(m, x, y) - SuperU(m, x', y') - k
  {
    hide *;
    var u, u', cu := SuperU(m, x, y), SuperU(m, x', y'), SuperU(m, cx, cy);
    SuperUIs(m, x, y, f, g, d, u);
    SuperUIs(m, x', y', f, g, d, u');
    SuperUIs(m, cx, cy, f, g, d, cu);
    LinearCore(f, g, d, k, kx, ky, x, y, x', y', cx, cy, u, u', cu);
  }

  lemma ShiftedV(m: Matrix, x: real, y: real, x': real, y': real, kx: real, ky: real, l: real, cx: real, cy: real,
                 f: real, g: real, d: real)
    requires Det(m) > 0 && f == -(m.q as real) && g == m.p as real && d == Det(m) as real
    requires cx == x - x' - kx && cy == y - y' - ky && f * kx + g * ky == l * d
    ensures SuperV(m, cx, cy) == SuperV(m, x, y) - SuperV(m, x', y') - l
  {
    hide *;
    var v, v', cv := SuperV(m, x, y), SuperV(m, x', y'), SuperV(m, cx, cy);
    SuperVIs(m, x, y, f, g, d, v);
    SuperVIs(m, x', y', f, g, d, v');
    SuperVIs(m, cx, cy, f, g, d, cv);
    LinearCore(f, g, d, l, kx, ky, x, y, x', y', cx, cy, v, v', cv);
  }

  lemma SuperUIs(m: Matrix, x: real, y: real, f: real, g: real, d: real, u: real)
    requires Det(m) > 0 && f == m.s as real && g == -(m.r as real) && d == Det(m) as real && u == SuperU(m, x, y)
    ensures u * d == f * x + g * y
  {
    hide *;
    SuperNumerators(m, x, y);
  }

  lemma SuperVIs(m: Matrix, x: real, y: real, f: real, g: real, d: real, v: real)
    requires Det(m) > 0 && f == -(m.q as real) && g == m.p as real && d == Det(m) as real && v == SuperV(m, x, y)
    ensures v * d == f * x + g * y
  {
    hide *;
    SuperNumerators(m, x, y);
  }

  lemma RowNumerators(p: int, q: int, r: int, s: int, k: int, l: int)
    ensures s * (k * p + l * r) - r * (k * q + l * s) == k * (p * s - q * r)
    ensures -q * (k * p + l * r) + p * (k * q + l * s) == l * (p * s - q * r)
  {
  }

  lemma NumeratorsAsReals(m: Matrix, k: int, l: int)
    ensures var kx, ky := (k * m.p + l * m.r) as real, (k * m.q + l * m.s) as real;
      && m.s as real * kx + -(m.r as real) * ky == k as real * Det(m) as real
      && -(m.q as real) * kx + m.p as real * ky == l as real * Det(m) as real
  {
    var x, y := k * m.p + l * m.r, k * m.q + l * m.s;
    RowNumerators(m.p, m.q, m.r, m.s, k, l);
    assert m.s * x - m.r * y == k * Det(m);
    assert -m.q * x + m.p * y == l * Det(m);
    ProductAsReal(m.s, x);
    ProductAsReal(m.r, y);
    ProductAsReal(m.q, x);
    ProductAsReal(m.p, y);
    ProductAsReal(k, Det(m));
    ProductAsReal(l, Det(m));
  }

  lemma ProductAsReal(i: int, j: int)
    ensures (i * j) as real == i as real * j as real
  {
  }

  lemma LinearCore(f: real, g: real, d: real, k: real, kx: real, ky: real,
                   x: real, y: real, x': real, y': real, cx: real, cy: real, u: real, u': real, cu: real)
    requires d > 0.0 && f * kx + g * ky == k * d && cx == x - x' - kx && cy == y - y' - ky
    requires u * d == f * x + g * y && u' * d == f * x' + g * y' && cu * d == f * cx + g * cy
    ensures cu == u - u' - k
  {
    assert f * cx == f * x - f * x' - f * kx;
    assert g * cy == g * y - g * y' - g * ky;
    assert (cu - (u - u' - k)) * d == cu * d - u * d + u' * d + k * d;
    ZeroProduct(cu - (u - u' - k), d);
  }

  /** With exactly orthogonal rows, the distance from a placed atom to any periodic image of another one is the
      crystal distance to a translate of it by a supercell vector. */
  lemma ImagesKeepDistance(w: Search, m: Matrix, x: real, y: real, x': real, y': real, k: int, l: int)
    returns (k': int, l': int)
    requires w.WellFormed() && Det(m) > 0
    requires w.Dot(w.CandidateAt(m.p, m.q), w.CandidateAt(m.r, m.s)) == 0.0
    ensures var lx, ly := w.CandidateAt(m.p, m.q).len, w.CandidateAt(m.r, m.s).len;
      var dx := (Frac(SuperU(m, x, y)) - Frac(SuperU(m, x', y')) - k as real) * lx;
      var dy := (Frac(SuperV(m, x, y)) - Frac(SuperV(m, x', y')) - l as real) * ly;
      var cx, cy := x - x' - (k' * m.p + l' * m.r) as real, y - y' - (k' * m.q + l' * m.s) as real;
      dx * dx + dy * dy == CartX(w, cx, cy) * CartX(w, cx, cy) + CartY(w, cy) * CartY(w, cy)
    ensures k' - k == SuperU(m, x, y).Floor - SuperU(m, x', y').Floor
    ensures l' - l == SuperV(m, x, y).Floor - SuperV(m, x', y').Floor
  {
    hide *;
    k' := k + SuperU(m, x, y).Floor - SuperU(m, x', y').Floor;
    l' := l + SuperV(m, x, y).Floor - SuperV(m, x', y').Floor;
    var cx, cy := x - x' - (k' * m.p + l' * m.r) as real, y - y' - (k' * m.q + l' * m.s) as real;
    SuperLinear(m, x, y, x', y', k', l');
    FracDifference(SuperU(m, x, y), SuperU(m, x', y'), k, k');
    FracDifference(SuperV(m, x, y), SuperV(m, x', y'), l, l');
    MatrixMapIsometry(w, m, cx, cy);
  }

  lemma FracDifference(u: real, v: real, k: int, k': int)
    requires k' == k + u.Floor - v.Floor
    ensures u - v - k' as real == Frac(u) - Frac(v) - k as real
  {
  }

  // Squared length of crystal coordinates, and of supercell coordinates on a rectangle.
  function CrystalSquared(w: Search, x: real, y: real): real {
    CartX(w, x, y) * CartX(w, x, y) + CartY(w, y) * CartY(w, y)
  }

  function BoxSquared(u: real, v: real, lx: real, ly: real): real {
    (u * lx) * (u * lx) + (v * ly) * (v * ly)
  }

  function MixedTerm(u: real, v: real, dot: real): real {
    2.0 * ((u * v) * dot)
  }

  predicate WithinFactor(d: real, r: real, tol: real) {
    (1.0 - tol) * r <= d <= (1.0 + tol) * r
  }

  lemma IsometryByName(w: Search, m: Matrix, x: real, y: real)
    requires w.WellFormed() && Det(m) > 0
    ensures var e, f := w.CandidateAt(m.p, m.q), w.CandidateAt(m.r, m.s);
      var u, v := SuperU(m, x, y), SuperV(m, x, y);
      CrystalSquared(w, x, y) == BoxSquared(u, v, e.len, f.len) + MixedTerm(u, v, w.Dot(e, f))
  {
    MatrixMapIsometry(w, m, x, y);
    hide SuperU, SuperV, CartX, CartY, Search.Dot, Search.WellFormed, Sublattice.Det;
  }

  /** The search accepts rows that are orthogonal up to its tolerance; building such a supercell changes squared
      distances by at most the tolerance: by a factor within 1 - tol and 1 + tol, unless the denominator is clamped. */
  lemma AcceptedMapDistance(w: Search, m: Matrix, x: real, y: real)
    requires w.WellFormed() && w.MinStep() > 0.0 && w.IsAcceptable(m)
    ensures Det(m) > 0
    ensures var e, f := w.CandidateAt(m.p, m.q), w.CandidateAt(m.r, m.s);
      var u, v := SuperU(m, x, y), SuperV(m, x, y);
      var crystal, box := CrystalSquared(w, x, y), BoxSquared(u, v, e.len, f.len);
      && AbsR(crystal - box) <= MixedLimit(u, v, DotLimit(w, e, f))
      && (w.LengthProduct(e, f) >= TINY ==> WithinFactor(crystal, box, w.tol))
  {
    hide *;
    DetRange(w, m);
    PairFacts(w, m);
    var e, f := w.CandidateAt(m.p, m.q), w.CandidateAt(m.r, m.s);
    DotBound(w, e, f);
    IsometryByName(w, m, x, y);
    LengthOf(w, m.p, m.q);
    LengthOf(w, m.r, m.s);
    var u, v := SuperU(m, x, y), SuperV(m, x, y);
    DotLimitHolds(w, e, f);
    MixedTermBound(u, v, w.Dot(e, f), DotLimit(w, e, f));
    DifferenceBound(CrystalSquared(w, x, y), BoxSquared(u, v, e.len, f.len), MixedTerm(u, v, w.Dot(e, f)), u, v,
                    DotLimit(w, e, f));
    if w.LengthProduct(e, f) >= TINY {
      UnclampedDenominator(w, e, f);
      MixedTermSmall(u, v, e.len, f.len, w.Dot(e, f), w.tol);
      FactorOf(CrystalSquared(w, x, y), BoxSquared(u, v, e.len, f.len), MixedTerm(u, v, w.Dot(e, f)), w.tol);
    }
  }

  // The largest dot product the filter lets through.
  function DotLimit(w: Search, u: Candidate, v: Candidate): real {
    w.tol * Denominator(w, u, v)
  }

  lemma DotLimitHolds(w: Search, u: Candidate, v: Candidate)
    requires w.OrthogonalityError(u, v) <= w.tol
    ensures AbsR(w.Dot(u, v)) <= DotLimit(w, u, v)
  {
    DotBound(w, u, v);
  }

  lemma DifferenceBound(d: real, r: real, mixed: real, u: real, v: real, most: real)
    requires d == r + mixed && AbsR(mixed) <= MixedLimit(u, v, most)
    ensures AbsR(d - r) <= MixedLimit(u, v, most)
  {
  }

  function MixedLimit(u: real, v: real, most: real): real {
    2.0 * (AbsR(u * v) * most)
  }

  lemma MixedTermBound(u: real, v: real, dot: real, most: real)
    requires AbsR(dot) <= most
    ensures AbsR(MixedTerm(u, v, dot)) <= MixedLimit(u, v, most)
  {
    AbsTimes(u * v, dot);
    MulMono(AbsR(dot), most, AbsR(u * v));
  }

  lemma FactorOf(d: real, r: real, mixed: real, tol: real)
    requires d == r + mixed && AbsR(mixed) <= tol * r
    ensures WithinFactor(d, r, tol)
  {
  }

  lemma UnclampedDenominator(w: Search, u: Candidate, v: Candidate)
    requires w.LengthProduct(u, v) >= TINY
    ensures Denominator(w, u, v) == u.len * v.len
  {
  }

  lemma MixedTermSmall(u: real, v: real, lu: real, lv: real, dot: real, tol: real)
    requires lu >= 0.0 && lv >= 0.0 && tol >= 0.0 && AbsR(dot) <= tol * (lu * lv)
    ensures AbsR(MixedTerm(u, v, dot)) <= tol * BoxSquared(u, v, lu, lv)
  {
    MeanOf(u, v, lu, lv);
    NonNegative(lu, lv);
    hide BoxSquared;
    MixedNamed(u * v, lu * lv, dot, tol, BoxSquared(u, v, lu, lv));
  }

  lemma NonNegative(x: real, y: real)
    requires x >= 0.0 && y >= 0.0
    ensures x * y >= 0.0
  {
  }

  lemma MeanOf(u: real, v: real, lu: real, lv: real)
    ensures 2.0 * AbsR((u * v) * (lu * lv)) <= BoxSquared(u, v, lu, lv)
  {
    MeanBound(u * lu, v * lv);
    Regroup(u, v, lu, lv);
  }

  lemma MixedNamed(uv: real, l: real, dot: real, tol: real, r: real)
    requires l >= 0.0 && tol >= 0.0 && AbsR(dot) <= tol * l && 2.0 * AbsR(uv * l) <= r
    ensures AbsR(2.0 * (uv * dot)) <= tol * r
  {
    AbsTimes(uv, l);
    AbsTimes(uv, dot);
    MixedCore(AbsR(uv), l, tol, AbsR(dot), AbsR(uv * dot), AbsR(uv * l), r);
  }

  lemma Regroup(u: real, v: real, lu: real, lv: real)
    ensures (u * lu) * (v * lv) == (u * v) * (lu * lv)
  {
  }

  lemma MixedCore(p: real, l: real, tol: real, dot: real, mixed: real, ab: real, r: real)
    requires p >= 0.0 && tol >= 0.0 && dot <= tol * l
    requires mixed == p * dot && ab == p * l && 2.0 * ab <= r
    ensures 2.0 * mixed <= tol * r
  {
    MulMono(dot, tol * l, p);
    assert (tol * l) * p == tol * ab;
    MulMono(2.0 * ab, r, tol);
  }

  lemma MeanBound(a: real, b: real)
    ensures 2.0 * AbsR(a * b) <= a * a + b * b
  {
    var s, d := a + b, a - b;
    assert s * s == a * a + 2.0 * (a * b) + b * b && d * d == a * a - 2.0 * (a * b) + b * b;
    assert s * s >= 0.0 && d * d >= 0.0;
  }

  lemma AbsTimes(x: real, y: real)
    ensures AbsR(x * y) == AbsR(x) * AbsR(y)
  {
  }

  /** For every accepted pair, the squared distance from a placed atom to any periodic image of another one agrees,
      up to the tolerance, with the squared crystal distance to a translate of it by a supercell vector. */
  lemma ImagesWithinTolerance(w: Search, m: Matrix, x: real, y: real, x': real, y': real, k: int, l: int)
    returns (k': int, l': int)
    requires w.WellFormed() && w.MinStep() > 0.0 && w.IsAcceptable(m)
    ensures Det(m) > 0
    ensures w.LengthProduct(w.CandidateAt(m.p, m.q), w.CandidateAt(m.r, m.s)) >= TINY ==>
      var lx, ly := w.CandidateAt(m.p, m.q).len, w.CandidateAt(m.r, m.s).len;
      var du := Frac(SuperU(m, x, y)) - Frac(SuperU(m, x', y')) - k as real;
      var dv := Frac(SuperV(m, x, y)) - Frac(SuperV(m, x', y')) - l as real;
      var cx, cy := x - x' - (k' * m.p + l' * m.r) as real, y - y' - (k' * m.q + l' * m.s) as real;
      WithinFactor(CrystalSquared(w, cx, cy), BoxSquared(du, dv, lx, ly), w.tol)
  {
    hide *;
    DetRange(w, m);
    k' := k + SuperU(m, x, y).Floor - SuperU(m, x', y').Floor;
    l' := l + SuperV(m, x, y).Floor - SuperV(m, x', y').Floor;
    var cx, cy := x - x' - (k' * m.p + l' * m.r) as real, y - y' - (k' * m.q + l' * m.s) as real;
    SuperLinear(m, x, y, x', y', k', l');
    FracDifference(SuperU(m, x, y), SuperU(m, x', y'), k, k');
    FracDifference(SuperV(m, x, y), SuperV(m, x', y'), l, l');
    AcceptedMapDistance(w, m, cx, cy);
  }

  // ---------------------------------------------------------------- the two builds agree on diagonal supercells

  lemma CellsSnoc(iz: int, cells: seq<Cell>, basis: seq<Site>)
    requires cells != []
    ensures var n := |cells| - 1;
      multiset(OverCells(iz, cells, basis))
        == multiset(OverCells(iz, cells[..n], basis)) + multiset(OverSites(iz, cells[n], basis))
  {
  }

  lemma {:induction false} CellsRemove(iz: int, cells: seq<Cell>, basis: seq<Site>, j: nat)
    requires j < |cells|
    ensures multiset(OverCells(iz, cells, basis))
         == multiset(OverCells(iz, RemoveAt(cells, j), basis)) + multiset(OverSites(iz, cells[j], basis))
  {
    hide OverCells, OverSites;
    var n := |cells| - 1;
    CellsSnoc(iz, cells, basis);
    if j < n {
      CellsRemove(iz, cells[..n], basis, j);
      var rest := RemoveAt(cells, j);
      assert rest[..n - 1] == RemoveAt(cells[..n], j);
      CellsSnoc(iz, rest, basis);
    } else {
      assert RemoveAt(cells, j) == cells[..n];
    }
  }

  lemma {:induction false} CellsPermute(iz: int, cells: seq<Cell>, cells': seq<Cell>, basis: seq<Site>)
    requires multiset(cells) == multiset(cells')
    ensures multiset(OverCells(iz, cells, basis)) == multiset(OverCells(iz, cells', basis))
    decreases |cells|
  {
    hide OverCells, OverSites;
    SameSizes(cells, cells');
    if cells != [] {
      var n := |cells| - 1;
      var j := IndexIn(cells[n], cells, cells');
      RemoveAtMultiset(cells', j);
      RemoveAtMultiset(cells, n);
      assert RemoveAt(cells, n) == cells[..n];
      CellsPermute(iz, cells[..n], RemoveAt(cells', j), basis);
      CellsRemove(iz, cells', basis, j);
      CellsSnoc(iz, cells, basis);
    } else {
      assert cells == cells';
    }
  }

  lemma {:induction false} LayersPermute(nz: nat, cells: seq<Cell>, cells': seq<Cell>, basis: seq<Site>)
    requires multiset(cells) == multiset(cells')
    ensures multiset(OverLayers(nz, cells, basis)) == multiset(OverLayers(nz, cells', basis))
  {
    hide OverLayers, OverCells;
    LayersUnfold(nz, cells, basis);
    LayersUnfold(nz, cells', basis);
    if nz > 0 {
      LayersPermute(nz - 1, cells, cells', basis);
      CellsPermute(nz - 1, cells, cells', basis);
    }
  }

  lemma PlaceRemove(place: Placement, s: seq<Origin>, j: nat)
    requires j < |s|
    ensures multiset(PlaceAll(place, s))
         == multiset(PlaceAll(place, RemoveAt(s, j))) + multiset{place(s[j].0, s[j].1, s[j].2)}
  {
    var all := PlaceAll(place, s);
    RemoveAtMultiset(all, j);
    assert PlaceAll(place, RemoveAt(s, j)) == RemoveAt(all, j);
    assert all[j] in multiset(all);
  }

  lemma {:induction false} PlacePermute(place: Placement, s: seq<Origin>, t: seq<Origin>)
    requires multiset(s) == multiset(t)
    ensures multiset(PlaceAll(place, s)) == multiset(PlaceAll(place, t))
    decreases |s|
  {
    SameSizes(s, t);
    if s != [] {
      var j := IndexIn(s[0], s, t);
      RemoveAtMultiset(s, 0);
      RemoveAtMultiset(t, j);
      PlacePermute(place, RemoveAt(s, 0), RemoveAt(t, j));
      PlaceRemove(place, s, 0);
      PlaceRemove(place, t, j);
    }
  }

  lemma GridRowListing(nx: nat, iy: int, c: Cell)
    ensures c in GridRow(nx, iy) <==> 0 <= c.0 < nx && c.1 == iy
  {
    if 0 <= c.0 < nx && c.1 == iy {
      assert GridRow(nx, iy)[c.0] == c;
    }
  }

  lemma GridUnfold(nx: nat, ny: nat)
    ensures ny == 0 ==> GridCells(nx, ny) == []
    ensures ny > 0 ==> GridCells(nx, ny) == GridCells(nx, ny - 1) + GridRow(nx, ny - 1)
    ensures ny > 0 ==> Distinct(GridRow(nx, ny - 1))
  {
  }

  lemma {:induction false} GridCellsListing(nx: nat, ny: nat)
    ensures forall c :: c in GridCells(nx, ny) <==> 0 <= c.0 < nx && 0 <= c.1 < ny
    ensures Distinct(GridCells(nx, ny))
  {
    hide GridCells, GridRow, Common.Distinct;
    GridUnfold(nx, ny);
    if ny > 0 {
      GridCellsListing(nx, ny - 1);
      forall c ensures c in GridRow(nx, ny - 1) <==> 0 <= c.0 < nx && c.1 == ny - 1 {
        GridRowListing(nx, ny - 1, c);
      }
      DistinctAppend(GridCells(nx, ny - 1), GridRow(nx, ny - 1));
    } else {
      DistinctEmpty<Cell>();
    }
  }

  lemma DiagonalCells(nx: int, ny: int, c: Cell)
    requires nx > 0 && ny > 0
    ensures Det(Matrix(nx, 0, 0, ny)) > 0
    ensures InCell(Matrix(nx, 0, 0, ny), c) <==> 0 <= c.0 < nx && 0 <= c.1 < ny
  {
    PositiveTimesPositive(nx, ny);
    BelowMultiple(c.0, nx, ny);
    BelowMultiple(c.1, ny, nx);
  }

  lemma PositiveTimesPositive(x: int, y: int)
    requires x > 0 && y > 0
    ensures x * y > 0
  {
  }

  lemma ScaledOrder(k: int, i: int, n: int, ki: int, kn: int)
    requires k > 0 && ki == k * i && kn == k * n
    ensures ki < kn <==> i < n
  {
    var d := n - i;
    assert kn - ki == k * d;
    assert d >= 1 ==> k * d >= k;
    assert d <= 0 ==> k * d <= 0;
  }

  lemma BelowMultiple(i: int, n: int, k: int)
    requires n > 0 && k > 0
    ensures 0 <= k * i < n * k <==> 0 <= i < n
  {
    ScaledOrder(k, i, n, k * i, k * n);
    ScaledOrder(k, i, 0, k * i, 0);
  }

  lemma DiagonalFraction(n: int, det: int, k: int, x: real, cell: real)
    requires n > 0 && k > 0 && det == n * k && 0.0 <= x < n as real
    ensures var u := (k as real * x) / det as real; 0.0 <= u < 1.0 && u * (n as real * cell) == x * cell
  {
    var u := (k as real * x) / det as real;
    assert det as real == n as real * k as real;
    DivideBack(k as real * x, det as real);
    assert (u * n as real - x) * k as real == 0.0;
    ZeroProduct(u * n as real - x, k as real);
    assert u * (n as real * cell) == (u * n as real) * cell;
    assert u >= 1.0 ==> u * n as real >= n as real;
    assert u < 0.0 ==> u * n as real < 0.0;
  }

  lemma DiagonalPlacement(nx: int, ny: int, a: real, h: real, skew: real, c: real, charges: Charges, o: Origin)
    requires nx > 0 && ny > 0 && Det(Matrix(nx, 0, 0, ny)) > 0
    requires 0 <= o.1.0 < nx && 0 <= o.1.1 < ny
    ensures At(MatrixPlacement(Matrix(nx, 0, 0, ny), nx as real * a, ny as real * h, c, charges), o)
         == At(ReplicatePlacement(a, h, skew, Orthogonalized, c, charges), o)
  {
    hide Numeric.Frac, SuperU, SuperV, Sublattice.Det;
    var m := Matrix(nx, 0, 0, ny);
    var x, y := o.1.0 as real + Frac(o.2.fx), o.1.1 as real + Frac(o.2.fy);
    DiagonalSuper(nx, ny, x, y);
    DiagonalFraction(nx, Det(m), ny, x, a);
    DiagonalFraction(ny, Det(m), nx, y, h);
    FracOfUnit(SuperU(m, x, y));
    FracOfUnit(SuperV(m, x, y));
  }

  lemma DiagonalSuper(nx: int, ny: int, x: real, y: real)
    requires Det(Matrix(nx, 0, 0, ny)) > 0
    ensures var m := Matrix(nx, 0, 0, ny);
      && Det(m) == nx * ny
      && SuperU(m, x, y) == (ny as real * x) / Det(m) as real && SuperV(m, x, y) == (nx as real * y) / Det(m) as real
  {
  }

  /** For a diagonal supercell the transformed build and the orthogonalized replicate build give the same atoms. */
  lemma DiagonalBuildsAgree(nx: nat, ny: nat, nz: nat, a: real, h: real, skew: real, c: real, charges: Charges,
                            cells: seq<Cell>, basis: seq<Site>)
    requires nx > 0 && ny > 0 && Det(Matrix(nx, 0, 0, ny)) > 0
    requires Distinct(cells) && forall d :: d in cells <==> InCell(Matrix(nx, 0, 0, ny), d)
    ensures var matrixPlace := MatrixPlacement(Matrix(nx, 0, 0, ny), nx as real * a, ny as real * h, c, charges);
      var gridPlace := ReplicatePlacement(a, h, skew, Orthogonalized, c, charges);
      multiset(PlaceAll(matrixPlace, OverLayers(nz, cells, basis)))
        == multiset(PlaceAll(gridPlace, OverLayers(nz, GridCells(nx, ny), basis)))
  {
    hide *;
    var matrixPlace := MatrixPlacement(Matrix(nx, 0, 0, ny), nx as real * a, ny as real * h, c, charges);
    var gridPlace := ReplicatePlacement(a, h, skew, Orthogonalized, c, charges);
    var origins := OverLayers(nz, cells, basis);
    LayersOrigins(nz, cells, basis);
    forall k | 0 <= k < |origins|
      ensures PlaceAll(matrixPlace, origins)[k] == PlaceAll(gridPlace, origins)[k]
    {
      var o := origins[k];
      DiagonalCells(nx, ny, o.1);
      DiagonalPlacement(nx, ny, a, h, skew, c, charges, o);
    }
    assert PlaceAll(matrixPlace, origins) == PlaceAll(gridPlace, origins);
    GridCellsListing(nx, ny);
    forall d ensures d in cells <==> d in GridCells(nx, ny) {
      DiagonalCells(nx, ny, d);
    }
    DistinctSameElements(cells, GridCells(nx, ny));
    LayersPermute(nz, cells, GridCells(nx, ny), basis);
    PlacePermute(gridPlace, origins, OverLayers(nz, GridCells(nx, ny), basis));
  }

  // ---------------------------------------------------------------- the building loops

  // Type numbers in order of first appearance.
  function TypeTable(placed: seq<Placed>): map<string, int> {
    if placed == [] then map[]
    else
      var t := TypeTable(placed[..|placed| - 1]);
      var e := placed[|placed| - 1].element;
      if e in t then t else t[e := |t| + 1]
  }

  ghost predicate NumbersOnto(t: map<string, int>) {
    && (forall e :: e in t ==> 1 <= t[e] <= |t|)
    && (forall e, f :: e in t && f in t && t[e] == t[f] ==> e == f)
  }

  lemma NumberingExtended(t: map<string, int>, e: string)
    requires NumbersOnto(t) && e !in t
    ensures NumbersOnto(t[e := |t| + 1]) && |t[e := |t| + 1]| == |t| + 1
  {
    assert t[e := |t| + 1].Keys == t.Keys + {e};
  }

  /** The table numbers exactly the elements that occur, one to one, with 1..N. */
  lemma {:induction false} TypeTableNumbersOnto(placed: seq<Placed>)
    ensures NumbersOnto(TypeTable(placed))
    ensures forall e :: e in TypeTable(placed) <==> exists k :: 0 <= k < |placed| && placed[k].element == e
  {
    forall e {
      TypeTableHolds(placed, e);
    }
    if placed != [] {
      var n := |placed| - 1;
      TypeTableNumbersOnto(placed[..n]);
      hide NumbersOnto;
      var t, e := TypeTable(placed[..n]), placed[n].element;
      if e !in t {
        NumberingExtended(t, e);
      }
    }
  }

  lemma {:induction false} TypeTableHolds(placed: seq<Placed>, e: string)
    ensures e in TypeTable(placed) <==> exists k :: 0 <= k < |placed| && placed[k].element == e
  {
    if placed != [] {
      var n := |placed| - 1;
      var front := placed[..n];
      TypeTableHolds(front, e);
      assert forall k :: 0 <= k < n ==> front[k] == placed[k];
      if exists k :: 0 <= k < n && placed[k].element == e {
        var k :| 0 <= k < n && placed[k].element == e;
        assert front[k].element == e;
      }
    }
  }

  /** Numbers are given in the order of first appearance: those of the elements among the first n atoms come first. */
  lemma {:induction false} TypesInOrder(placed: seq<Placed>, n: nat)
    requires n <= |placed|
    ensures var t, early := TypeTable(placed), TypeTable(placed[..n]);
      && (forall e :: e in early ==> e in t && t[e] == early[e] <= |early|)
      && (forall e :: e in t && e !in early ==> t[e] > |early|)
      && |early| <= |t|
  {
    hide TypeTable;
    if n < |placed| {
      var k := |placed| - 1;
      TypesInOrder(placed[..k], n);
      assert placed[..k][..n] == placed[..n];
      TypeTableGrows(placed[..k], placed[k]);
      assert placed[..k] + [placed[k]] == placed;
      var t, e := TypeTable(placed[..k]), placed[k].element;
      if e !in t {
        TypeTableNumbersOnto(placed[..k]);
        NumberingExtended(t, e);
      }
      hide NumbersOnto;
    } else {
      assert placed[..n] == placed;
      TypeTableNumbersOnto(placed);
    }
  }

  lemma TypeTableGrows(placed: seq<Placed>, p: Placed)
    ensures TypeTable(placed + [p])
         == if p.element in TypeTable(placed) then TypeTable(placed)
            else TypeTable(placed)[p.element := |TypeTable(placed)| + 1]
  {
    assert (placed + [p])[..|placed|] == placed;
  }

  // The objects hold the placed atoms in order, with ids 1..n and the type of their element.
  ghost predicate Holds(atoms: seq<Atom>, placed: seq<Placed>, types: map<string, int>)
    reads atoms
  {
    && |atoms| == |placed|
    && types == TypeTable(placed)
    && (forall k :: 0 <= k < |atoms| ==>
          placed[k].element in types && atoms[k].View() == AtomView(k + 1, types[placed[k].element], placed[k]))
    && Distinct(atoms)
  }

  method AppendAtom(atoms: seq<Atom>, types: map<string, int>, p: Placed, ghost placed: seq<Placed>)
    returns (atoms': seq<Atom>, types': map<string, int>)
    requires Holds(atoms, placed, types)
    ensures Holds(atoms', placed + [p], types')
    ensures atoms < atoms' && (forall k :: |atoms| <= k < |atoms'| ==> fresh(atoms'[k]))
  {
    types' := types;
    if p.element !in types' {
      types' := types'[p.element := |types'| + 1];
    }
    var atom := new Atom(|atoms| + 1, types'[p.element], p);
    atoms' := atoms + [atom];
    HoldsMore(atoms, placed, types, atom, p, types');
  }

  lemma HoldsMore(atoms: seq<Atom>, placed: seq<Placed>, types: map<string, int>, atom: Atom, p: Placed,
                  types': map<string, int>)
    requires Holds(atoms, placed, types) && atom !in atoms
    requires types' == if p.element in types then types else types[p.element := |types| + 1]
    requires atom.View() == AtomView(|atoms| + 1, types'[p.element], p)
    ensures Holds(atoms + [atom], placed + [p], types')
  {
    hide TypeTable, Atom.View;
    TypeTableGrows(placed, p);
  }

  lemma PlaceOneMore(place: Placement, origins: seq<Origin>, o: Origin)
    ensures PlaceAll(place, origins + [o]) == PlaceAll(place, origins) + [place(o.0, o.1, o.2)]
  {
  }

  // The innermost loop: one unit cell.
  method BuildCell(place: Placement, iz: int, cell: Cell, basis: seq<Site>, atoms: seq<Atom>, types: map<string, int>,
                   ghost origins: seq<Origin>)
    returns (atoms': seq<Atom>, types': map<string, int>)
    requires Holds(atoms, PlaceAll(place, origins), types)
    ensures Holds(atoms', PlaceAll(place, origins + OverSites(iz, cell, basis)), types')
    ensures atoms <= atoms' && (forall k :: |atoms| <= k < |atoms'| ==> fresh(atoms'[k]))
  {
    hide TypeTable, Holds, PlaceAll;
    atoms', types' := atoms, types;
    ghost var done := origins;
    assert done == origins + OverSites(iz, cell, basis)[..0];
    for si := 0 to |basis|
      invariant done == origins + OverSites(iz, cell, basis)[..si]
      invariant Holds(atoms', PlaceAll(place, done), types')
      invariant atoms <= atoms' && (forall k :: |atoms| <= k < |atoms'| ==> fresh(atoms'[k]))
    {
      PlaceOneMore(place, done, (iz, cell, basis[si]));
      atoms', types' := AppendAtom(atoms', types', place(iz, cell, basis[si]), PlaceAll(place, done));
      done := done + [(iz, cell, basis[si])];
    }
    assert OverSites(iz, cell, basis)[..|basis|] == OverSites(iz, cell, basis);
  }

  /** Layers, then cells in the given order, then basis atoms. */
  method BuildLayers(place: Placement, nz: nat, cells: seq<Cell>, basis: seq<Site>)
    returns (atoms: seq<Atom>, types: map<string, int>)
    ensures Holds(atoms, PlaceAll(place, OverLayers(nz, cells, basis)), types)
    ensures forall k :: 0 <= k < |atoms| ==> fresh(atoms[k])
  {
    hide TypeTable, OverSites, OverCells, OverLayers, Holds, PlaceAll;
    atoms, types := [], map[];
    ghost var done: seq<Origin> := [];
    LayersUnfold(0, cells, basis);
    EmptyHolds(place, atoms, types);
    for iz := 0 to nz
      invariant done == OverLayers(iz, cells, basis)
      invariant Holds(atoms, PlaceAll(place, done), types) && (forall k :: 0 <= k < |atoms| ==> fresh(atoms[k]))
    {
      ghost var start := done;
      NoCells(iz, cells[..0], basis);
      for ci := 0 to |cells|
        invariant done == start + OverCells(iz, cells[..ci], basis)
        invariant Holds(atoms, PlaceAll(place, done), types) && (forall k :: 0 <= k < |atoms| ==> fresh(atoms[k]))
      {
        atoms, types := BuildCell(place, iz, cells[ci], basis, atoms, types, done);
        done := done + OverSites(iz, cells[ci], basis);
        CellsGrow(iz, cells, basis, ci);
        assert done == start + OverCells(iz, cells[..ci + 1], basis);
      }
      assert cells[..|cells|] == cells;
      LayersUnfold(iz + 1, cells, basis);
    }
  }

  lemma NoCells(iz: int, cells: seq<Cell>, basis: seq<Site>)
    requires cells == []
    ensures OverCells(iz, cells, basis) == []
  {
  }

  lemma EmptyHolds(place: Placement, atoms: seq<Atom>, types: map<string, int>)
    requires atoms == [] && types == map[]
    ensures Holds(atoms, PlaceAll(place, []), types)
  {
  }

  lemma CellsGrow(iz: int, cells: seq<Cell>, basis: seq<Site>, ci: nat)
    requires ci < |cells|
    ensures OverCells(iz, cells[..ci + 1], basis) == OverCells(iz, cells[..ci], basis) + OverSites(iz, cells[ci], basis)
  {
    assert cells[..ci + 1][..ci] == cells[..ci];
  }

  /** The transformed build: enumerate the origins, then place every basis atom on each of them. */
  method BuildWithMatrix(m: Matrix, nz: nat, lx: real, ly: real, c: real, charges: Charges, basis: seq<Site>)
    returns (res: Result<(seq<Atom>, map<string, int>), EnumerationError>, ghost cells: seq<Cell>)
    ensures Det(m) <= 0 <==> res.Failure?
    ensures res.Success? ==> |cells| == Det(m) && Distinct(cells) && forall d :: d in cells <==> InCell(m, d)
    ensures res.Success? ==> forall i, j :: 0 <= i < j < |cells| ==> ScannedBefore(cells[i], cells[j])
    ensures res.Success? ==>
      && Holds(res.value.0, PlaceAll(MatrixPlacement(m, lx, ly, c, charges), OverLayers(nz, cells, basis)), res.value.1)
      && (forall k :: 0 <= k < |res.value.0| ==> fresh(res.value.0[k]))
  {
    hide Holds, PlaceAll, OverLayers, Sublattice.InCell, Sublattice.IsTransversal;
    cells := [];
    var enumerated := EnumerateUnitCells(m);
    if enumerated.Failure? {
      return Failure(enumerated.error), cells;
    }
    cells := enumerated.value;
    ScanIsDistinct(cells);
    var atoms, types := BuildLayers(MatrixPlacement(m, lx, ly, c, charges), nz, enumerated.value, basis);
    return Success((atoms, types)), cells;
  }

  lemma ScanIsDistinct(cells: seq<Cell>)
    requires forall x, y :: 0 <= x < y < |cells| ==> ScannedBefore(cells[x], cells[y])
    ensures Distinct(cells)
  {
  }

  // One layer of the replicate build: y outermost.
  method BuildGridLayer(place: Placement, iz: int, nx: nat, ny: nat, basis: seq<Site>, atoms: seq<Atom>,
                        types: map<string, int>, ghost origins: seq<Origin>)
    returns (atoms': seq<Atom>, types': map<string, int>)
    requires Holds(atoms, PlaceAll(place, origins), types)
    ensures Holds(atoms', PlaceAll(place, origins + OverCells(iz, GridCells(nx, ny), basis)), types')
    ensures atoms <= atoms' && (forall k :: |atoms| <= k < |atoms'| ==> fresh(atoms'[k]))
  {
    hide TypeTable, OverSites, Holds, PlaceAll, OverCells, GridCells;
    atoms', types' := atoms, types;
    ghost var done := origins;
    NoRows(iz, nx, basis);
    assert done == origins + OverCells(iz, GridCells(nx, 0), basis);
    for iy := 0 to ny
      invariant done == origins + OverCells(iz, GridCells(nx, iy), basis)
      invariant Holds(atoms', PlaceAll(place, done), types')
      invariant atoms <= atoms' && (forall k :: |atoms| <= k < |atoms'| ==> fresh(atoms'[k]))
    {
      assert GridCells(nx, iy) + GridRow(nx, iy)[..0] == GridCells(nx, iy);
      for ix := 0 to nx
        invariant done == origins + OverCells(iz, GridCells(nx, iy) + GridRow(nx, iy)[..ix], basis)
        invariant Holds(atoms', PlaceAll(place, done), types')
        invariant atoms <= atoms' && (forall k :: |atoms| <= k < |atoms'| ==> fresh(atoms'[k]))
      {
        atoms', types' := BuildCell(place, iz, (ix, iy), basis, atoms', types', done);
        done := done + OverSites(iz, (ix, iy), basis);
        GridGrow(iz, nx, iy, ix, basis);
        assert done == origins + OverCells(iz, GridCells(nx, iy) + GridRow(nx, iy)[..ix + 1], basis);
      }
      assert GridRow(nx, iy)[..nx] == GridRow(nx, iy);
      GridUnfold(nx, iy + 1);
    }
  }

  lemma NoRows(iz: int, nx: nat, basis: seq<Site>)
    ensures OverCells(iz, GridCells(nx, 0), basis) == []
  {
  }

  /** The replicate build: the same loops over a plain grid of cells. */
  method BuildWithReplicates(cellX: real, cellY: real, skew: real, mode: CellMode, c: real, charges: Charges,
                             nx: nat, ny: nat, nz: nat, basis: seq<Site>)
    returns (atoms: seq<Atom>, types: map<string, int>)
    ensures var place := ReplicatePlacement(cellX, cellY, skew, mode, c, charges);
      Holds(atoms, PlaceAll(place, OverLayers(nz, GridCells(nx, ny), basis)), types)
    ensures forall k :: 0 <= k < |atoms| ==> fresh(atoms[k])
  {
    var place := ReplicatePlacement(cellX, cellY, skew, mode, c, charges);
    hide TypeTable, OverCells, Holds, GridCells, PlaceAll;
    atoms, types := [], map[];
    ghost var done: seq<Origin> := [];
    EmptyHolds(place, atoms, types);
    for iz := 0 to nz
      invariant done == OverLayers(iz, GridCells(nx, ny), basis)
      invariant Holds(atoms, PlaceAll(place, done), types) && (forall k :: 0 <= k < |atoms| ==> fresh(atoms[k]))
    {
      atoms, types := BuildGridLayer(place, iz, nx, ny, basis, atoms, types, done);
      done := done + OverCells(iz, GridCells(nx, ny), basis);
    }
  }

  lemma GridGrow(iz: int, nx: nat, iy: nat, ix: nat, basis: seq<Site>)
    requires ix < nx
    ensures OverCells(iz, GridCells(nx, iy) + GridRow(nx, iy)[..ix + 1], basis)
         == OverCells(iz, GridCells(nx, iy) + GridRow(nx, iy)[..ix], basis) + OverSites(iz, (ix, iy), basis)
  {
    var cells := GridCells(nx, iy) + GridRow(nx, iy)[..ix + 1];
    assert cells[..|cells| - 1] == GridCells(nx, iy) + GridRow(nx, iy)[..ix];
  }
}
