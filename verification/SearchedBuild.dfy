/** From the search to the finished slab: a result without fallback reason is built by its matrix, any other one by
    repeating the unit cell. */
module SearchedBuild {
  import opened Common
  import opened Numeric
  import opened Sublattice
  import opened SupercellSearch
  import opened SearchRadius
  import opened CrystalPlacement
  import opened Lattice
  import opened Hydroxyl
  import opened HydroxylFacts
  import opened CrystalSlab

  datatype BuildError = NoSearch(search: SearchError) | NoSlab(slab: SlabError)

  /** Whatever the search returns is a supercell: positive determinant, edges and number of layers; with a fallback
      reason it is the diagonal one. */
  lemma FoundSupercell(w: Search)
    requires w.WellFormed()
    ensures Optimal(w).Success? ==>
      var r := Optimal(w).value;
      && Det(r.matrix) == r.det >= 1 && r.nz >= 1 && r.lx > 0.0 && r.ly > 0.0
      && (r.fallback != None ==>
            && r.matrix.p >= 1 && r.matrix.s >= 1 && r.det == r.matrix.p * r.matrix.s
            && r.lx == Span(r.matrix.p, w.CellX()) && r.ly == Span(r.matrix.s, w.CellY()))
  {
    hide *;
    if Optimal(w).Success? {
      OptimalIs(w);
      var r := Optimal(w).value;
      if r == w.DiagonalResult(r.fallback) {
        FoundDiagonal(w, r.fallback);
      } else {
        FoundMatrix(w, r.matrix);
      }
    }
  }

  lemma OptimalIs(w: Search)
    requires Optimal(w).Success?
    ensures w.targetXy > 0.0 && w.targetZ > 0.0
    ensures var r := Optimal(w).value;
      || r == w.DiagonalResult(r.fallback)
      || (r.fallback == None && w.MinStep() > 0.0 && w.IsBest(r.matrix) && r == w.MatrixResult(r.matrix))
  {
    hide Search.IsBest, Search.BeatsDiagonal, Search.IsAcceptable, Search.IsCandidate, Search.MinStep,
         Search.IsRightAngled, Search.OrthogonalityError, Search.ErrorXyPct, Search.Nz, Search.X, Search.Y,
         Search.CellX, Search.CellY, Numeric.Round;
  }

  lemma LayersPositive(w: Search, cellZ: real)
    requires w.targetZ > 0.0
    ensures w.Nz(cellZ) >= 1
  {
    hide BestNz;
    BestNzThickness(w.targetZ, cellZ, 0.8);
  }

  lemma FoundDiagonal(w: Search, reason: Option<Fallback>)
    requires w.targetZ > 0.0
    ensures var r := w.DiagonalResult(reason);
      && r.matrix.p >= 1 && r.matrix.s >= 1
      && Det(r.matrix) == r.det == r.matrix.p * r.matrix.s >= 1 && r.nz >= 1
      && r.lx == Span(r.matrix.p, w.CellX()) > 0.0 && r.ly == Span(r.matrix.s, w.CellY()) > 0.0
  {
    hide *;
    DiagonalShape(w, reason);
    DiagonalArea(w, reason);
    EdgesPositive(w);
    LayersPositive(w, MaxR(w.c, TINY));
    DiagonalNz(w, reason);
    var r := w.DiagonalResult(reason);
    PositiveMultiple(r.matrix.p, w.CellX(), r.lx);
    PositiveMultiple(r.matrix.s, w.CellY(), r.ly);
  }

  lemma DiagonalNz(w: Search, reason: Option<Fallback>)
    ensures w.DiagonalResult(reason).nz == w.Nz(MaxR(w.c, TINY))
  {
    hide Search.Nz, Search.ErrorXyPct, Search.CellX, Search.CellY, Numeric.Round;
  }

  lemma PositiveMultiple(n: int, x: real, y: real)
    requires n >= 1 && x > 0.0 && y == n as real * x
    ensures y == Span(n, x) > 0.0
  {
    MulMono(1.0, n as real, x);
  }

  lemma FoundMatrix(w: Search, m: Matrix)
    requires w.WellFormed() && w.targetXy > 0.0 && w.targetZ > 0.0 && w.MinStep() > 0.0 && w.IsBest(m)
    ensures var r := w.MatrixResult(m);
      Det(m) == r.det >= 1 && r.nz >= 1 && r.lx > 0.0 && r.ly > 0.0 && r.matrix == m && r.fallback == None
  {
    hide *;
    BestIsAcceptable(w, m);
    PairFacts(w, m);
    DetRange(w, m);
    MatrixNz(w, m);
    LayersPositive(w, w.c);
    LengthIs(w, m.p, m.q);
    LengthIs(w, m.r, m.s);
    AcceptedArea(w, m);
    CellsNonzero(w, Det(m));
    var r := w.MatrixResult(m);
    EdgesFromArea(r.lx, r.ly, r.lx * r.ly, w.CellAreas(Det(m)));
  }

  lemma MatrixNz(w: Search, m: Matrix)
    ensures w.MatrixResult(m).nz == w.Nz(w.c) && w.MatrixResult(m).matrix == m && w.MatrixResult(m).fallback == None
  {
    hide Search.Nz, Search.ErrorXyPct, Search.OrthogonalityError, Search.X, Search.Y;
  }

  lemma CellsNonzero(w: Search, n: int)
    requires w.MinStep() > 0.0 && n >= 1
    ensures w.CellAreas(n) != 0.0
  {
    var h := w.b * w.sinG;
    assert w.a != 0.0 && h != 0.0;
    ProductNonzero(w.a, h);
    ProductNonzero(n as real, w.a * h);
  }

  lemma EdgesFromArea(lx: real, ly: real, area: real, cells: real)
    requires lx >= 0.0 && ly >= 0.0 && area == lx * ly && cells != 0.0 && cells * cells <= area * area
    ensures lx > 0.0 && ly > 0.0
  {
    SquarePositive(cells, cells * cells);
    NonzeroFactors(lx, ly, area);
  }

  lemma SquarePositive(x: real, square: real)
    requires x != 0.0 && square == x * x
    ensures square > 0.0
  {
    StrictSquare(0.0, AbsR(x));
    AbsSquare(x);
  }

  lemma NonzeroFactors(x: real, y: real, area: real)
    requires area == x * y && area * area > 0.0
    ensures x != 0.0 && y != 0.0
  {
  }

  // The distance between neighbouring rows of cells, and how far the second edge leads along the first.
  function RowEdge(w: Search): real {
    w.b * w.sinG
  }

  function Skew(w: Search): real {
    w.b * w.cosG
  }

  /** The lattice of a supercell that the search returned: its own cells without a fallback reason, and otherwise those
      of the grid, orthogonalized. */
  ghost predicate IsSearchedLattice(trace: Trace, r: Supercell, w: Search, charges: Charges, basis: seq<Site>) {
    && r.nz >= 1 && r.det >= 1 && r.lx > 0.0 && r.ly > 0.0
    && (r.fallback == None ==>
          IsMatrixLattice(trace.lattice, trace.cells, r.matrix, r.nz, r.lx, r.ly, w.c, charges, basis))
    && (r.fallback != None ==>
          && r.matrix.p >= 1 && r.matrix.s >= 1
          && IsGridLattice(trace.lattice, r.matrix.p, r.matrix.s, r.nz, w.a, RowEdge(w), Skew(w), Orthogonalized,
                           w.c, charges, basis))
    && IsCharged(trace.lattice, CellCount(r), charges, basis)
  }

  // The unit cells of all layers.
  function CellCount(r: Supercell): nat
    requires r.nz >= 1 && r.det >= 1
  {
    r.nz * r.det
  }

  /** The finished slab for a supercell that the search returned. */
  ghost predicate IsSearchedSlab(slab: Slab, trace: Trace, r: Supercell, w: Search, charges: Charges, basis: seq<Site>,
                                 surfacing: Surfacing)
    requires r.nz >= 1 && r.det >= 1
    reads slab.0
  {
    && IsBuilt(slab, trace, CellCount(r), surfacing, charges, basis, r.lx, r.ly)
    && (w.a >= TINY && RowEdge(w) >= TINY && w.c > 0.0 && SitesDiffer(basis) ==>
          LatticeStands(Views(slab.0), LatticeSize(r.nz, r.det, |basis|), r.lx, r.ly, Span(r.nz, w.c)))
  }

  /** The build with a search for the supercell. It fails exactly when the search does, and otherwise only as the
      surface passes fail: never for want of a supercell. The lattice is that of the supercell that was found, atom by
      atom. With cell edges that the search did not clamp, the lattice atoms stand at pairwise different places inside
      the box that the search reports. */
  method BuildSearchedSlab(w: Search, charges: Charges, basis: seq<Site>, surfacing: Surfacing,
                           choose: (nat, nat) -> seq<nat>)
    returns (res: Result<Slab, BuildError>, ghost trace: Trace)
    requires w.WellFormed() && IsChooser(choose)
    ensures Optimal(w).Failure? <==> res.Failure? && res.error.NoSearch?
    ensures Optimal(w).Failure? ==> res == Failure(NoSearch(Optimal(w).error))
    ensures Optimal(w).Success? ==>
      var r := Optimal(w).value;
      && IsSearchedLattice(trace, r, w, charges, basis)
      && (res == Failure(NoSlab(NoAtoms)) <==> surfacing.Hydroxylated? && basis == [])
      && (res == Failure(NoSlab(NegativeCount)) <==> AsksNegative(surfacing, trace.lattice, r.lx, r.ly))
      && (res == Failure(NoSlab(Charged)) <==> EndsCharged(surfacing, trace.lattice, charges, r.lx, r.ly))
      && (res.Failure? ==> res.error.NoSlab? && !res.error.slab.NotASupercell?)
      && (res.Success? ==> IsSearchedSlab(res.value, trace, r, w, charges, basis, surfacing))
  {
    hide *;
    trace := Trace([], [], [], None);
    FoundSupercell(w);
    var found := FindOptimalSupercell(w);
    if found.Failure? {
      res := Failure(NoSearch(found.error));
      return;
    }
    var r := found.value;
    var slab: Result<Slab, SlabError>;
    CountIs(r);
    SizeZero(r, |basis|);
    if r.fallback == None {
      slab, trace := BuildMatrixSlab(r.matrix, r.nz, r.lx, r.ly, w.c, charges, basis, surfacing, choose);
      MatrixLatticeIs(trace, r, w, charges, basis);
      if slab.Success? {
        MatrixSlabIs(slab.value, trace, r, w, charges, basis, surfacing);
      }
    } else {
      AtLeastOne(r.matrix.p);
      AtLeastOne(r.matrix.s);
      slab, trace := BuildReplicateSlab(w.a, RowEdge(w), Skew(w), Orthogonalized, w.c, charges,
                                        Max(1, r.matrix.p), Max(1, r.matrix.s), r.nz, r.lx, r.ly, basis, surfacing,
                                        choose);
      GridLatticeIs(trace, r, w, charges, basis);
      if slab.Success? {
        ReplicateSlabIs(slab.value, trace, r, w, charges, basis, surfacing);
      }
    }
    res := if slab.Failure? then Failure(NoSlab(slab.error)) else Success(slab.value);
  }

  lemma CountIs(r: Supercell)
    requires r.nz >= 1 && r.det >= 1
    ensures CellCount(r) == r.nz * r.det
  {
  }

  lemma SizeZero(r: Supercell, sites: nat)
    requires r.nz >= 1 && r.det >= 1
    ensures LatticeSize(r.nz, r.det, sites) == 0 <==> sites == 0
  {
    if sites >= 1 {
      assert r.det * sites >= 1;
      assert r.nz * (r.det * sites) >= 1;
    }
  }

  lemma MatrixLatticeIs(trace: Trace, r: Supercell, w: Search, charges: Charges, basis: seq<Site>)
    requires r.nz >= 1 && r.det == Det(r.matrix) >= 1 && r.lx > 0.0 && r.ly > 0.0 && r.fallback == None
    requires IsMatrixLattice(trace.lattice, trace.cells, r.matrix, r.nz, r.lx, r.ly, w.c, charges, basis)
    requires IsCharged(trace.lattice, r.nz * Det(r.matrix), charges, basis)
    ensures IsSearchedLattice(trace, r, w, charges, basis)
  {
    hide IsMatrixLattice, IsCharged, Det;
  }

  lemma GridLatticeIs(trace: Trace, r: Supercell, w: Search, charges: Charges, basis: seq<Site>)
    requires r.matrix.p >= 1 && r.matrix.s >= 1 && r.det == r.matrix.p * r.matrix.s >= 1 && r.nz >= 1
    requires r.lx > 0.0 && r.ly > 0.0 && r.fallback != None
    requires IsGridLattice(trace.lattice, r.matrix.p, r.matrix.s, r.nz, w.a, RowEdge(w), Skew(w), Orthogonalized,
                           w.c, charges, basis)
    requires IsCharged(trace.lattice, r.nz * (r.matrix.p * r.matrix.s), charges, basis)
    ensures IsSearchedLattice(trace, r, w, charges, basis)
  {
    hide IsGridLattice, IsCharged, RowEdge, Skew;
    assert CellCount(r) == r.nz * (r.matrix.p * r.matrix.s);
  }

  lemma MatrixSlabIs(slab: Slab, trace: Trace, r: Supercell, w: Search, charges: Charges, basis: seq<Site>,
                     surfacing: Surfacing)
    requires Det(r.matrix) == r.det >= 1 && r.nz >= 1 && r.lx > 0.0 && r.ly > 0.0
    requires IsBuilt(slab, trace, r.nz * Det(r.matrix), surfacing, charges, basis, r.lx, r.ly)
    requires w.c > 0.0 && SitesDiffer(basis) ==>
      LatticeStands(Views(slab.0), LatticeSize(r.nz, Det(r.matrix), |basis|), r.lx, r.ly, Span(r.nz, w.c))
    ensures IsSearchedSlab(slab, trace, r, w, charges, basis, surfacing)
  {
    hide IsBuilt, LatticeStands, SitesDiffer, Views, Det, LatticeSize, Span;
  }

  lemma ReplicateSlabIs(slab: Slab, trace: Trace, r: Supercell, w: Search, charges: Charges, basis: seq<Site>,
                        surfacing: Surfacing)
    requires r.matrix.p >= 1 && r.matrix.s >= 1 && r.det == r.matrix.p * r.matrix.s >= 1 && r.nz >= 1
    requires r.lx == Span(r.matrix.p, w.CellX()) && r.ly == Span(r.matrix.s, w.CellY())
    requires IsBuilt(slab, trace, r.nz * (r.matrix.p * r.matrix.s), surfacing, charges, basis, r.lx, r.ly)
    requires w.a > 0.0 && RowEdge(w) > 0.0 && w.c > 0.0 && SitesDiffer(basis) ==>
      LatticeStands(Views(slab.0), LatticeSize(r.nz, r.matrix.p * r.matrix.s, |basis|), Span(r.matrix.p, w.a),
                    Span(r.matrix.s, RowEdge(w)), Span(r.nz, w.c))
    ensures IsSearchedSlab(slab, trace, r, w, charges, basis, surfacing)
  {
    hide IsBuilt, LatticeStands, SitesDiffer, Views, Search.CellX, Search.CellY, LatticeSize, Span, RowEdge;
    if w.a >= TINY && RowEdge(w) >= TINY {
      Unclamped(w);
    }
  }

  lemma AtLeastOne(n: int)
    requires n >= 1
    ensures Max(1, n) == n
  {
  }

  lemma Unclamped(w: Search)
    requires w.a >= TINY && RowEdge(w) >= TINY
    ensures w.CellX() == w.a > 0.0 && w.CellY() == RowEdge(w) > 0.0
  {
  }

  // ---------------------------------------------------------------- distances in the finished slab

  // The squared distance between a basis atom and a translate of another one by k and l rows of the supercell.
  function CrystalD2(w: Search, m: Matrix, cell: Cell, site: Site, cell': Cell, site': Site, k: int, l: int,
                     dz: real): real
  {
    var x := CrystalX(cell, site) - CrystalX(cell', site') - (k * m.p + l * m.r) as real;
    var y := CrystalY(cell, site) - CrystalY(cell', site') - (k * m.q + l * m.s) as real;
    CrystalSquared(w, x, y) + dz * dz
  }

  // A place in the box tells the supercell coordinates.
  lemma WrappedCoordinates(m: Matrix, cell: Cell, site: Site, u: real, v: real)
    requires Det(m) > 0 && WrapsTo(m, cell, site, u, v)
    ensures var x, y := CrystalX(cell, site), CrystalY(cell, site);
      u == Frac(SuperU(m, x, y)) && v == Frac(SuperV(m, x, y))
  {
    var k, l :| IsWrapped(m, cell, site, u, v, k, l);
    var x, y := CrystalX(cell, site), CrystalY(cell, site);
    hide SuperU, SuperV, CrystalX, CrystalY, RowShift, Det, Frac;
    var cx, cy := x - RowShift(m.p, m.r, k, l) as real, y - RowShift(m.q, m.s, k, l) as real;
    RowsBack(m, cx, cy, u, v);
    RowsTakenOff(m, x, y, cx, cy, k, l);
    WholePart(SuperU(m, x, y), u, k);
    WholePart(SuperV(m, x, y), v, l);
  }

  lemma RowsTakenOff(m: Matrix, x: real, y: real, cx: real, cy: real, k: int, l: int)
    requires Det(m) > 0
    requires cx == x - RowShift(m.p, m.r, k, l) as real && cy == y - RowShift(m.q, m.s, k, l) as real
    ensures SuperU(m, cx, cy) == SuperU(m, x, y) - k as real && SuperV(m, cx, cy) == SuperV(m, x, y) - l as real
  {
    hide SuperU, SuperV;
    SuperLinear(m, x, y, 0.0, 0.0, k, l);
    RowsBack(m, 0.0, 0.0, 0.0, 0.0);
  }

  lemma WholePart(x: real, u: real, k: int)
    requires 0.0 <= u < 1.0 && x == u + k as real
    ensures Frac(x) == u
  {
    FracParts(x);
    hide Numeric.Frac;
    UnitIntervalUnique(Frac(x), u, k - x.Floor);
  }

  lemma FracParts(x: real)
    ensures Frac(x) == x - x.Floor as real
  {
  }

  lemma RowsBack(m: Matrix, x: real, y: real, u: real, v: real)
    requires Det(m) > 0
    requires m.p as real * u + m.r as real * v == x && m.q as real * u + m.s as real * v == y
    ensures SuperU(m, x, y) == u && SuperV(m, x, y) == v
  {
    Reconstruct(m, x, y);
    hide SuperU, SuperV;
    SameCombination(m, SuperU(m, x, y), SuperV(m, x, y), u, v);
  }

  /** In the slab of an accepted matrix, the squared distance from one lattice atom to any periodic image of another
      agrees, up to the tolerance, with the squared distance in the crystal between their basis atoms, one of them
      translated by a supercell vector. */
  lemma SlabDistances(w: Search, m: Matrix, lattice: seq<AtomView>, after: seq<AtomView>, cells: seq<Cell>, nz: nat,
                      c: real, charges: Charges, basis: seq<Site>, iz: nat, ci: nat, si: nat, iz': nat, ci': nat,
                      si': nat, k: int, l: int)
    returns (k': int, l': int)
    requires w.WellFormed() && w.MinStep() > 0.0 && w.IsAcceptable(m)
    requires w.LengthProduct(w.CandidateAt(m.p, m.q), w.CandidateAt(m.r, m.s)) >= TINY
    requires w.norm(m.p, m.q) > 0.0 && w.norm(m.r, m.s) > 0.0
    requires IsMatrixLattice(lattice, cells, m, nz, w.norm(m.p, m.q), w.norm(m.r, m.s), c, charges, basis)
    requires KeepsPlaces(lattice, after)
    requires iz < nz && ci < |cells| && si < |basis| && iz' < nz && ci' < |cells| && si' < |basis|
    ensures var at, at' := AtomIndex(|cells|, |basis|, iz, ci, si), AtomIndex(|cells|, |basis|, iz', ci', si');
      && at < |after| && at' < |after|
      && var p, p' := after[at].p, after[at'].p;
         WithinFactor(CrystalD2(w, m, cells[ci], basis[si], cells[ci'], basis[si'], k', l', p.z - p'.z),
                      ImageD2(p, p', w.norm(m.p, m.q), w.norm(m.r, m.s), k, l), w.tol)
    ensures var at, at' := AtomIndex(|cells|, |basis|, iz, ci, si), AtomIndex(|cells|, |basis|, iz', ci', si');
      at < |after| && after[at].p.z == (iz as real + Frac(basis[si].fz)) * c
  {
    hide *;
    var lx, ly := w.norm(m.p, m.q), w.norm(m.r, m.s);
    var at, u, v := AtomOfLattice(lattice, after, cells, m, nz, lx, ly, c, charges, basis, iz, ci, si);
    var at', u', v' := AtomOfLattice(lattice, after, cells, m, nz, lx, ly, c, charges, basis, iz', ci', si');
    k', l' := BoxDistances(w, m, cells[ci], basis[si], cells[ci'], basis[si'], u, v, u', v', k, l);
    var p, p' := after[at].p, after[at'].p;
    ToleranceHolds(w, m);
    BoxIsImage(p, p', lx, ly, k, l, u, v, u', v', u - u' - k as real, v - v' - l as real);
    PlusHeight(w, m, cells[ci], basis[si], cells[ci'], basis[si'], k', l', p.z - p'.z,
               BoxSquared(u - u' - k as real, v - v' - l as real, lx, ly), ImageD2(p, p', lx, ly, k, l));
  }

  // Without a fallback reason on an oblique cell, the result is an accepted matrix with the lengths of its rows.
  lemma FoundAcceptable(w: Search)
    requires Optimal(w).Success? && !w.IsRightAngled() && Optimal(w).value.fallback == None
    ensures var r := Optimal(w).value;
      && w.MinStep() > 0.0 && w.IsAcceptable(r.matrix)
      && r.lx == w.norm(r.matrix.p, r.matrix.q) && r.ly == w.norm(r.matrix.r, r.matrix.s)
      && r.lx * r.ly == w.LengthProduct(w.CandidateAt(r.matrix.p, r.matrix.q), w.CandidateAt(r.matrix.r, r.matrix.s))
  {
    hide *;
    FoundIsBest(w);
    var m := Optimal(w).value.matrix;
    BestIsAcceptable(w, m);
    PairFacts(w, m);
    ProductsOf(w, w.CandidateAt(m.p, m.q), w.CandidateAt(m.r, m.s));
  }

  lemma FoundIsBest(w: Search)
    requires Optimal(w).Success? && !w.IsRightAngled() && Optimal(w).value.fallback == None
    ensures var r := Optimal(w).value;
      w.targetXy > 0.0 && w.MinStep() > 0.0 && w.IsBest(r.matrix) && r == w.MatrixResult(r.matrix)
  {
    hide Search.IsBest, Search.BeatsDiagonal, Search.IsAcceptable, Search.IsCandidate, Search.MinStep,
         Search.IsRightAngled, Search.OrthogonalityError, Search.ErrorXyPct, Search.Nz, Search.X, Search.Y,
         Search.CellX, Search.CellY, Numeric.Round;
  }

  lemma PlacesKept(slab: Slab, trace: Trace, n: nat, surfacing: Surfacing, charges: Charges, basis: seq<Site>, lx: real,
                   ly: real)
    requires IsBuilt(slab, trace, n, surfacing, charges, basis, lx, ly)
    ensures KeepsPlaces(trace.lattice, Views(slab.0))
  {
    hide IsSlab, IsChoice, LabelsKept, LabelsChanged, Views;
  }

  /** The distances in the slab that the searched build returns: every periodic distance between two lattice atoms is,
      up to the tolerance of the search, a distance in the crystal. */
  lemma ReturnedDistances(slab: Slab, trace: Trace, w: Search, charges: Charges, basis: seq<Site>, surfacing: Surfacing,
                          iz: nat, ci: nat, si: nat, iz': nat, ci': nat, si': nat, k: int, l: int)
    returns (k': int, l': int)
    requires w.WellFormed() && Optimal(w).Success? && !w.IsRightAngled() && Optimal(w).value.fallback == None
    requires IsSearchedLattice(trace, Optimal(w).value, w, charges, basis)
    requires Optimal(w).value.nz >= 1 && Optimal(w).value.det >= 1
    requires IsSearchedSlab(slab, trace, Optimal(w).value, w, charges, basis, surfacing)
    requires Optimal(w).value.lx * Optimal(w).value.ly >= TINY
    requires iz < Optimal(w).value.nz && ci < |trace.cells| && si < |basis|
    requires iz' < Optimal(w).value.nz && ci' < |trace.cells| && si' < |basis|
    ensures var r, n, vs := Optimal(w).value, |trace.cells|, Views(slab.0);
      var at, at' := AtomIndex(n, |basis|, iz, ci, si), AtomIndex(n, |basis|, iz', ci', si');
      && at < |vs| && at' < |vs|
      && var p, p' := vs[at].p, vs[at'].p;
         WithinFactor(CrystalD2(w, r.matrix, trace.cells[ci], basis[si], trace.cells[ci'], basis[si'], k', l',
                                p.z - p'.z),
                      ImageD2(p, p', r.lx, r.ly, k, l), w.tol)
  {
    hide *;
    FoundAcceptable(w);
    var r := Optimal(w).value;
    LatticeOf(trace, r, w, charges, basis);
    BuiltOf(slab, trace, r, w, charges, basis, surfacing);
    PlacesKept(slab, trace, CellCount(r), surfacing, charges, basis, r.lx, r.ly);
    k', l' := SlabDistances(w, r.matrix, trace.lattice, Views(slab.0), trace.cells, r.nz, w.c, charges, basis, iz, ci,
                            si, iz', ci', si', k, l);
  }

  lemma LatticeOf(trace: Trace, r: Supercell, w: Search, charges: Charges, basis: seq<Site>)
    requires IsSearchedLattice(trace, r, w, charges, basis) && r.fallback == None
    ensures r.nz >= 1 && r.det >= 1 && r.lx > 0.0 && r.ly > 0.0
    ensures IsMatrixLattice(trace.lattice, trace.cells, r.matrix, r.nz, r.lx, r.ly, w.c, charges, basis)
  {
    hide IsMatrixLattice;
  }

  lemma BuiltOf(slab: Slab, trace: Trace, r: Supercell, w: Search, charges: Charges, basis: seq<Site>,
                surfacing: Surfacing)
    requires r.nz >= 1 && r.det >= 1 && IsSearchedSlab(slab, trace, r, w, charges, basis, surfacing)
    ensures IsBuilt(slab, trace, CellCount(r), surfacing, charges, basis, r.lx, r.ly)
  {
    hide IsBuilt;
  }

  // The same for two places in the plane.
  lemma BoxDistances(w: Search, m: Matrix, cell: Cell, site: Site, cell': Cell, site': Site, u: real, v: real, u': real,
                     v': real, k: int, l: int)
    returns (k': int, l': int)
    requires w.WellFormed() && w.MinStep() > 0.0 && w.IsAcceptable(m)
    requires w.LengthProduct(w.CandidateAt(m.p, m.q), w.CandidateAt(m.r, m.s)) >= TINY
    requires Det(m) > 0 ==> WrapsTo(m, cell, site, u, v) && WrapsTo(m, cell', site', u', v')
    ensures var box := BoxSquared(u - u' - k as real, v - v' - l as real, w.norm(m.p, m.q), w.norm(m.r, m.s));
      WithinFactor(CrystalD2(w, m, cell, site, cell', site', k', l', 0.0), box, w.tol)
  {
    hide *;
    var x, y := CrystalX(cell, site), CrystalY(cell, site);
    var x', y' := CrystalX(cell', site'), CrystalY(cell', site');
    DetRange(w, m);
    WrappedCoordinates(m, cell, site, u, v);
    WrappedCoordinates(m, cell', site', u', v');
    k', l' := ImagesWithinTolerance(w, m, x, y, x', y', k, l);
    CandidateLength(w, m.p, m.q);
    CandidateLength(w, m.r, m.s);
    var cx, cy := x - x' - (k' * m.p + l' * m.r) as real, y - y' - (k' * m.q + l' * m.s) as real;
    CrystalD2Is(w, m, cell, site, cell', site', k', l', 0.0, cx, cy);
  }

  lemma PlusHeight(w: Search, m: Matrix, cell: Cell, site: Site, cell': Cell, site': Site, k: int, l: int, dz: real,
                   box: real, image: real)
    requires WithinFactor(CrystalD2(w, m, cell, site, cell', site', k, l, 0.0), box, w.tol) && w.tol >= 0.0
    requires image == box + dz * dz
    ensures WithinFactor(CrystalD2(w, m, cell, site, cell', site', k, l, dz), image, w.tol)
  {
    hide CrystalX, CrystalY, CrystalSquared, WithinFactor;
    AddHeight(CrystalD2(w, m, cell, site, cell', site', k, l, 0.0), box, w.tol, dz);
  }

  lemma AtomOfLattice(lattice: seq<AtomView>, after: seq<AtomView>, cells: seq<Cell>, m: Matrix, nz: nat, lx: real,
                      ly: real, c: real, charges: Charges, basis: seq<Site>, iz: nat, ci: nat, si: nat)
    returns (at: nat, u: real, v: real)
    requires lx > 0.0 && ly > 0.0 && IsMatrixLattice(lattice, cells, m, nz, lx, ly, c, charges, basis)
    requires KeepsPlaces(lattice, after) && iz < nz && ci < |cells| && si < |basis|
    ensures at == AtomIndex(|cells|, |basis|, iz, ci, si) && at < |after|
    ensures WrapsTo(m, cells[ci], basis[si], u, v) && after[at].p.x == u * lx && after[at].p.y == v * ly
    ensures after[at].p.z == (iz as real + Frac(basis[si].fz)) * c
  {
    hide AtomIndex, WrapsTo, ListsCells, IsSiteAtom, Numeric.Frac;
    at := AtomIndex(|cells|, |basis|, iz, ci, si);
    assert StandsInBox(lattice[at].p, m, lx, ly, c, iz, cells[ci], basis[si]);
    u, v := after[at].p.x / lx, after[at].p.y / ly;
    DivideBack(after[at].p.x, lx);
    DivideBack(after[at].p.y, ly);
  }

  lemma CandidateLength(w: Search, p: int, q: int)
    ensures w.CandidateAt(p, q).len == w.norm(p, q)
  {
    hide Search.X, Search.Y;
  }

  lemma BoxIsImage(p: Placed, p': Placed, lx: real, ly: real, k: int, l: int, u: real, v: real, u': real, v': real,
                   du: real, dv: real)
    requires p.x == u * lx && p.y == v * ly && p'.x == u' * lx && p'.y == v' * ly
    requires du == u - u' - k as real && dv == v - v' - l as real
    ensures ImageD2(p, p', lx, ly, k, l) == BoxSquared(du, dv, lx, ly) + (p.z - p'.z) * (p.z - p'.z)
  {
    BoxDifference(p.x, p'.x, lx, k, u, u', du);
    BoxDifference(p.y, p'.y, ly, l, v, v', dv);
  }

  lemma BoxDifference(x: real, x': real, l: real, k: int, u: real, u': real, d: real)
    requires x == u * l && x' == u' * l && d == u - u' - k as real
    ensures d * l == x - x' - l * k as real
  {
    assert d * l == u * l - u' * l - k as real * l;
  }

  lemma CrystalD2Is(w: Search, m: Matrix, cell: Cell, site: Site, cell': Cell, site': Site, k: int, l: int, dz: real,
                    cx: real, cy: real)
    requires cx == CrystalX(cell, site) - CrystalX(cell', site') - (k * m.p + l * m.r) as real
    requires cy == CrystalY(cell, site) - CrystalY(cell', site') - (k * m.q + l * m.s) as real
    ensures CrystalD2(w, m, cell, site, cell', site', k, l, dz) == CrystalSquared(w, cx, cy) + dz * dz
  {
    hide CrystalX, CrystalY, CrystalSquared;
  }

  lemma ToleranceHolds(w: Search, m: Matrix)
    requires w.MinStep() > 0.0 && w.IsAcceptable(m)
    ensures w.tol >= 0.0
  {
    hide *;
    PairFacts(w, m);
    DotBound(w, w.CandidateAt(m.p, m.q), w.CandidateAt(m.r, m.s));
  }

  lemma AddHeight(d: real, r: real, tol: real, dz: real)
    requires WithinFactor(d, r, tol) && tol >= 0.0
    ensures WithinFactor(d + dz * dz, r + dz * dz, tol)
  {
    var h := dz * dz;
    assert h >= 0.0 && tol * h >= 0.0;
    assert (1.0 - tol) * (r + h) == (1.0 - tol) * r + h - tol * h;
    assert (1.0 + tol) * (r + h) == (1.0 + tol) * r + h + tol * h;
  }

  // The rows of a supercell are independent.
  lemma SameCombination(m: Matrix, u: real, v: real, u': real, v': real)
    requires Det(m) > 0
    requires m.p as real * u + m.r as real * v == m.p as real * u' + m.r as real * v'
    requires m.q as real * u + m.s as real * v == m.q as real * u' + m.s as real * v'
    ensures u == u' && v == v'
  {
    var d := Det(m) as real;
    assert d == m.p as real * m.s as real - m.q as real * m.r as real;
    IndependentRows(m.p as real, m.q as real, m.r as real, m.s as real, d, u - u', v - v');
  }

  lemma IndependentRows(p: real, q: real, r: real, s: real, d: real, u: real, v: real)
    requires d > 0.0 && d == p * s - q * r && p * u + r * v == 0.0 && q * u + s * v == 0.0
    ensures u == 0.0 && v == 0.0
  {
    assert u * d == s * (p * u + r * v) - r * (q * u + s * v);
    assert v * d == p * (q * u + s * v) - q * (p * u + r * v);
    ZeroProduct(u, d);
    ZeroProduct(v, d);
  }
}
