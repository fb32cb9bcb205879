/** The search for a near-rectangular supercell close to a target edge length.

    Angles enter only through their cosine and sine, and the hypotenuse function only through the length it
    assigns to the lattice vector with integer coordinates (p, q): see Search.WellFormed.
 */
module SupercellSearch {
  import opened Common
  import opened Numeric
  import opened Sublattice

  const TINY := 0.000000000001

  datatype Fallback = NoCandidateVectors | NoOrthogonalCandidate | NoBetterOrthogonalCandidate

  datatype SearchError = TargetXyNotPositive | TargetZNotPositive | UnsupportedGamma

  datatype Supercell = Supercell(
    matrix: Matrix, det: int, nz: int, lx: real, ly: real, lz: real,
    orthogonalityError: real, errorXyPct: real, isDiagonal: bool, fallback: Option<Fallback>)

  // An integer combination of the two in-plane lattice vectors, with its Cartesian components and length.
  datatype Candidate = Candidate(p: int, q: int, x: real, y: real, len: real)

  datatype Rank = Rank(distance: real, det: int, skew: real, size: int)

  predicate RankLess(a: Rank, b: Rank) {
    || a.distance < b.distance
    || (a.distance == b.distance && a.det < b.det)
    || (a.distance == b.distance && a.det == b.det && a.skew < b.skew)
    || (a.distance == b.distance && a.det == b.det && a.skew == b.skew && a.size < b.size)
  }

  // The number of layers whose total height best matches the target, never thinner than minFrac of it.
  function BestNz(targetZ: real, cellZ: real, minFrac: real): int {
    var safeC := MaxR(cellZ, TINY);
    var nz := Max(1, Round(targetZ / safeC));
    if nz as real * safeC < targetZ * minFrac then Max(1, Ceil(targetZ / safeC)) else nz
  }

  /** The slab is at least minFrac of the target, and less than one layer above it unless it is a single layer. */
  lemma BestNzThickness(targetZ: real, cellZ: real, minFrac: real)
    requires targetZ > 0.0 && minFrac <= 1.0
    ensures var nz := BestNz(targetZ, cellZ, minFrac);
      var safeC := MaxR(cellZ, TINY);
      && nz >= 1
      && targetZ * minFrac <= nz as real * safeC
      && (nz == 1 || nz as real * safeC < targetZ + safeC)
  {
    LayerChoice(targetZ, MaxR(cellZ, TINY), minFrac);
  }

  lemma LayerChoice(target: real, cell: real, minFrac: real)
    requires target > 0.0 && minFrac <= 1.0 && cell > 0.0
    ensures var n, up := Max(1, Round(target / cell)), Max(1, Ceil(target / cell));
      && target * minFrac <= up as real * cell
      && (n == 1 || n as real * cell < target + cell)
      && (up == 1 || up as real * cell < target + cell)
  {
    var ratio := target / cell;
    RoundError(ratio);
    CeilBounds(ratio);
    LayersAgainst(target, cell, ratio, Max(1, Ceil(ratio)));
    LayersAgainst(target, cell, ratio, Max(1, Round(ratio)));
    MulMono(minFrac, 1.0, target);
  }

  lemma LayersAgainst(target: real, cell: real, ratio: real, n: int)
    requires cell > 0.0 && ratio == target / cell
    ensures ratio <= n as real ==> target <= n as real * cell
    ensures n as real < ratio + 1.0 ==> n as real * cell < target + cell
  {
    assert ratio * cell == target;
    var over := n as real - ratio;
    assert over * cell == n as real * cell - target;
    assert over < 1.0 ==> over * cell < 1.0 * cell;
    assert over >= 0.0 ==> over * cell >= 0.0;
  }

  datatype Search = Search(
    a: real, b: real, gammaDeg: real, cosG: real, sinG: real, c: real,
    targetXy: real, targetZ: real, maxCells: int, tol: real, minNz: int,
    norm: (int, int) -> real)
  {
    function X(p: int, q: int): real {
      p as real * a + q as real * (b * cosG)
    }

    function Y(p: int, q: int): real {
      p as real * 0.0 + q as real * (b * sinG)
    }

    ghost predicate WellFormed() {
      && cosG * cosG + sinG * sinG == 1.0
      && forall p, q :: IsLength(p, q)
    }

    // The length assigned to a lattice vector is its Euclidean length.
    predicate IsLength(p: int, q: int) {
      norm(p, q) >= 0.0 && norm(p, q) * norm(p, q) == X(p, q) * X(p, q) + Y(p, q) * Y(p, q)
    }

    // math.isclose(gamma, 90, abs_tol=1e-8) with the default relative tolerance 1e-9.
    predicate IsRightAngled() {
      AbsR(gammaDeg - 90.0) <= MaxR(0.000000001 * MaxR(AbsR(gammaDeg), 90.0), 0.00000001)
    }

    function MinStep(): real {
      MinR(AbsR(a), AbsR(b * sinG))
    }

    function Radius(): int
      requires MinStep() > 0.0
    {
      Max(1, Ceil(targetXy / MinStep()) + 3)
    }

    function Margin(): real {
      2.0 * MaxR(AbsR(a), AbsR(b))
    }

    function CandidateAt(p: int, q: int): Candidate {
      Candidate(p, q, X(p, q), Y(p, q), norm(p, q))
    }

    predicate IsCandidate(p: int, q: int)
      requires MinStep() > 0.0
    {
      && -Radius() <= p <= Radius() && -Radius() <= q <= Radius()
      && !(p == 0 && q == 0)
      && AbsR(norm(p, q) - targetXy) <= Margin()
    }

    // The area of a number of unit cells.
    function CellAreas(n: int): real {
      n as real * (a * (b * sinG))
    }

    function Dot(u: Candidate, v: Candidate): real {
      u.x * v.x + u.y * v.y
    }

    function LengthProduct(u: Candidate, v: Candidate): real {
      u.len * v.len
    }

    function OrthogonalityError(u: Candidate, v: Candidate): real {
      AbsR(Dot(u, v) / MaxR(LengthProduct(u, v), TINY))
    }

    // The filters on a pair of candidate vectors.
    predicate Accepts(u: Candidate, v: Candidate) {
      && 0 < u.p * v.q - u.q * v.p <= maxCells
      && OrthogonalityError(u, v) <= tol
    }

    function ErrorXyPct(lx: real, ly: real): real {
      MaxR(AbsR(lx - targetXy), AbsR(ly - targetXy)) / MaxR(targetXy, TINY) * 100.0
    }

    function RankOf(u: Candidate, v: Candidate): Rank
      requires targetXy > 0.0
    {
      var ex := (u.len - targetXy) / targetXy;
      var ey := (v.len - targetXy) / targetXy;
      Rank(ex * ex + ey * ey, u.p * v.q - u.q * v.p, AbsR(u.len - v.len), Abs(u.p) + Abs(u.q) + Abs(v.p) + Abs(v.q))
    }

    function Nz(cellZ: real): int {
      Max(minNz, BestNz(targetZ, cellZ, 0.8))
    }

    function PairResult(u: Candidate, v: Candidate): Supercell {
      Supercell(Matrix(u.p, u.q, v.p, v.q), u.p * v.q - u.q * v.p, Nz(c), u.len, v.len, Nz(c) as real * c,
                OrthogonalityError(u, v), ErrorXyPct(u.len, v.len), u.q == 0 && v.p == 0, None)
    }

    function CellX(): real {
      MaxR(a, TINY)
    }

    function CellY(): real {
      MaxR(AbsR(b * sinG), TINY)
    }

    function DiagonalResult(reason: Option<Fallback>): Supercell {
      var nx := Max(1, Round(targetXy / CellX()));
      var ny := Max(1, Round(targetXy / CellY()));
      var nz := Nz(MaxR(c, TINY));
      var lx := nx as real * CellX();
      var ly := ny as real * CellY();
      Supercell(Matrix(nx, 0, 0, ny), nx * ny, nz, lx, ly, nz as real * MaxR(c, TINY),
                AbsR(cosG), ErrorXyPct(lx, ly), true, reason)
    }

    // The matrices the nested search can choose from.
    predicate IsAcceptable(m: Matrix)
      requires MinStep() > 0.0
    {
      && IsCandidate(m.p, m.q) && IsCandidate(m.r, m.s)
      && Accepts(CandidateAt(m.p, m.q), CandidateAt(m.r, m.s))
    }

    function MatrixRank(m: Matrix): Rank
      requires targetXy > 0.0
    {
      RankOf(CandidateAt(m.p, m.q), CandidateAt(m.r, m.s))
    }

    // Rank first; among equal ranks the pair that the scan meets first.
    predicate Precedes(m: Matrix, n: Matrix)
      requires targetXy > 0.0
    {
      || RankLess(MatrixRank(m), MatrixRank(n))
      || (MatrixRank(m) == MatrixRank(n) && ScannedFirst(m, n))
    }

    /** The unique best acceptable matrix. */
    ghost predicate IsBest(m: Matrix)
      requires MinStep() > 0.0 && targetXy > 0.0
    {
      IsAcceptable(m) && forall n :: IsAcceptable(n) && n != m ==> Precedes(m, n)
    }

    function MatrixResult(m: Matrix): Supercell {
      PairResult(CandidateAt(m.p, m.q), CandidateAt(m.r, m.s))
    }

    predicate BeatsDiagonal(m: Matrix) {
      MatrixResult(m).errorXyPct + 0.000001 < DiagonalResult(None).errorXyPct
    }
  }

  predicate ScannedFirst(m: Matrix, n: Matrix) {
    ScannedBefore((m.p, m.q), (n.p, n.q)) || ((m.p, m.q) == (n.p, n.q) && ScannedBefore((m.r, m.s), (n.r, n.s)))
  }

  // ---------------------------------------------------------------- geometry of an accepted pair

  /** Lagrange's identity on the lattice: the area of the supercell is det unit-cell areas, corrected by the dot
      product. */
  lemma AreaIdentity(w: Search, m: Matrix)
    requires w.WellFormed()
    ensures var u, v := w.CandidateAt(m.p, m.q), w.CandidateAt(m.r, m.s);
      w.LengthProduct(u, v) * w.LengthProduct(u, v)
        == w.CellAreas(Det(m)) * w.CellAreas(Det(m)) + w.Dot(u, v) * w.Dot(u, v)
  {
    hide *;
    var u, v := w.CandidateAt(m.p, m.q), w.CandidateAt(m.r, m.s);
    LengthOf(w, m.p, m.q);
    LengthOf(w, m.r, m.s);
    CrossOf(w, m);
    ProductsOf(w, u, v);
    AreaCore(u.len, v.len, u.x, u.y, v.x, v.y, w.CellAreas(Det(m)), w.Dot(u, v), w.LengthProduct(u, v));
  }

  lemma LengthOf(w: Search, p: int, q: int)
    requires w.WellFormed()
    ensures var u := w.CandidateAt(p, q); u.len >= 0.0 && u.len * u.len == u.x * u.x + u.y * u.y
  {
    assert w.IsLength(p, q);
  }

  lemma CrossOf(w: Search, m: Matrix)
    ensures var u, v := w.CandidateAt(m.p, m.q), w.CandidateAt(m.r, m.s);
      u.x * v.y - u.y * v.x == w.CellAreas(Det(m))
  {
    var p, q, r, s := m.p as real, m.q as real, m.r as real, m.s as real;
    assert Det(m) as real == p * s - q * r;
    CrossProduct(w.a, w.b * w.cosG, w.b * w.sinG, p, q, r, s, Det(m) as real, w.a * (w.b * w.sinG));
  }

  lemma ProductsOf(w: Search, u: Candidate, v: Candidate)
    ensures w.Dot(u, v) == u.x * v.x + u.y * v.y
    ensures w.LengthProduct(u, v) == u.len * v.len
  {
  }

  lemma AreaCore(lu: real, lv: real, ux: real, uy: real, vx: real, vy: real, cross: real, dot: real,
                 area: real)
    requires lu * lu == ux * ux + uy * uy && lv * lv == vx * vx + vy * vy
    requires ux * vy - uy * vx == cross && dot == ux * vx + uy * vy && area == lu * lv
    ensures area * area == cross * cross + dot * dot
  {
    SquareOfProduct(lu, lv);
    Lagrange(ux, uy, vx, vy);
  }

  lemma SquareOfProduct(x: real, y: real)
    ensures (x * y) * (x * y) == (x * x) * (y * y)
  {
  }

  lemma CrossProduct(a: real, bx: real, bz: real, p: real, q: real, r: real, s: real, det: real, area: real)
    requires det == p * s - q * r && area == a * bz
    ensures (p * a + q * bx) * (r * 0.0 + s * bz) - (p * 0.0 + q * bz) * (r * a + s * bx) == det * area
  {
    assert (p * a + q * bx) * (s * bz) == (p * s) * (a * bz) + (q * s) * (bx * bz);
    assert (q * bz) * (r * a + s * bx) == (q * r) * (a * bz) + (q * s) * (bx * bz);
    assert det * area == (p * s) * area - (q * r) * area;
  }

  lemma Lagrange(x: real, y: real, z: real, w: real)
    ensures (x * x + y * y) * (z * z + w * w) == (x * w - y * z) * (x * w - y * z) + (x * z + y * w) * (x * z + y * w)
  {
    assert (x * w - y * z) * (x * w - y * z) == (x * x) * (w * w) - 2.0 * ((x * y) * (z * w)) + (y * y) * (z * z);
    assert (x * z + y * w) * (x * z + y * w) == (x * x) * (z * z) + 2.0 * ((x * y) * (z * w)) + (y * y) * (w * w);
  }

  // The denominator of the orthogonality error.
  function Denominator(w: Search, u: Candidate, v: Candidate): real {
    MaxR(w.LengthProduct(u, v), TINY)
  }

  /** An accepted pair encloses det unit-cell areas: the squared areas differ by at most the squared tolerance times the
      squared denominator, so up to a factor set by the tolerance unless the denominator is clamped. */
  lemma AcceptedArea(w: Search, m: Matrix)
    requires w.WellFormed() && w.MinStep() > 0.0 && w.IsAcceptable(m)
    ensures var r, cells := w.MatrixResult(m), w.CellAreas(w.MatrixResult(m).det);
      var area, clamped := r.lx * r.ly, Denominator(w, w.CandidateAt(m.p, m.q), w.CandidateAt(m.r, m.s));
      && cells * cells <= area * area <= cells * cells + w.tol * w.tol * (clamped * clamped)
      && (area >= TINY ==> (1.0 - w.tol * w.tol) * (area * area) <= cells * cells)
  {
    hide *;
    AreaIdentity(w, m);
    PairFacts(w, m);
    var u, v := w.CandidateAt(m.p, m.q), w.CandidateAt(m.r, m.s);
    DotBound(w, u, v);
    ProductsOf(w, u, v);
    AreaWithinTolerance(w.Dot(u, v), w.LengthProduct(u, v), Denominator(w, u, v), w.tol, w.CellAreas(Det(m)));
  }

  lemma PairFacts(w: Search, m: Matrix)
    requires w.MinStep() > 0.0 && w.IsAcceptable(m)
    ensures var u, v := w.CandidateAt(m.p, m.q), w.CandidateAt(m.r, m.s);
      && w.OrthogonalityError(u, v) <= w.tol
      && u.len == w.norm(m.p, m.q) && v.len == w.norm(m.r, m.s)
      && w.MatrixResult(m).lx == u.len && w.MatrixResult(m).ly == v.len && w.MatrixResult(m).det == Det(m)
  {
    hide Search.X, Search.Y, Search.OrthogonalityError, Search.Nz, Search.ErrorXyPct;
  }

  lemma DetRange(w: Search, m: Matrix)
    ensures w.MinStep() > 0.0 && w.IsAcceptable(m) ==> 0 < Det(m) <= w.maxCells
  {
    hide Search.X, Search.Y, Search.OrthogonalityError, Search.IsCandidate;
  }

  // The filter bounds the dot product.
  lemma DotBound(w: Search, u: Candidate, v: Candidate)
    requires w.OrthogonalityError(u, v) <= w.tol
    ensures Denominator(w, u, v) == MaxR(w.LengthProduct(u, v), TINY) > 0.0 && w.tol >= 0.0
    ensures AbsR(w.Dot(u, v)) <= w.tol * Denominator(w, u, v)
  {
    QuotientBound(w.Dot(u, v), Denominator(w, u, v), w.tol);
  }

  lemma QuotientBound(x: real, d: real, t: real)
    requires d > 0.0 && AbsR(x / d) <= t
    ensures AbsR(x) <= t * d && t >= 0.0
  {
    var e := x / d;
    assert x == e * d;
    MulMono(e, t, d);
    MulMono(-e, t, d);
  }

  lemma AreaWithinTolerance(dot: real, area: real, clamped: real, tol: real, cells: real)
    requires clamped == MaxR(area, TINY) && tol >= 0.0 && AbsR(dot) <= tol * clamped
    requires area * area == cells * cells + dot * dot
    ensures cells * cells <= area * area <= cells * cells + tol * tol * (clamped * clamped)
    ensures area >= TINY ==> (1.0 - tol * tol) * (area * area) <= cells * cells
  {
    SquareMono(AbsR(dot), tol * clamped);
    SquareOfProduct(tol, clamped);
  }

  /** The diagonal supercell encloses exactly det cell areas: those of the crystal, unless an edge of the cell is so
      small that it is clamped. */
  lemma DiagonalArea(w: Search, reason: Option<Fallback>)
    ensures var r := w.DiagonalResult(reason);
      && r.lx * r.ly == r.det as real * (w.CellX() * w.CellY())
      && r.det == Det(r.matrix) >= 1
      && (w.a >= TINY && AbsR(w.b * w.sinG) >= TINY ==> r.lx * r.ly == AbsR(w.CellAreas(r.det)))
  {
    hide *;
    DiagonalShape(w, reason);
    var r := w.DiagonalResult(reason);
    RectangleArea(r, w.CellX(), w.CellY());
    if w.a >= TINY && AbsR(w.b * w.sinG) >= TINY {
      UnclampedCell(w, r.det);
    }
  }

  lemma UnclampedCell(w: Search, n: int)
    requires w.a >= TINY && AbsR(w.b * w.sinG) >= TINY && n >= 1
    ensures n as real * (w.CellX() * w.CellY()) == AbsR(w.CellAreas(n))
  {
    var h := w.b * w.sinG;
    assert w.CellX() == w.a && w.CellY() == AbsR(h);
    AbsProduct(w.a, h);
    AbsProduct(n as real, w.a * h);
  }

  lemma AbsProduct(x: real, y: real)
    requires x >= 0.0
    ensures AbsR(x * y) == x * AbsR(y)
  {
  }

  lemma DiagonalShape(w: Search, reason: Option<Fallback>)
    ensures var r := w.DiagonalResult(reason);
      && r.matrix == Matrix(Max(1, Round(w.targetXy / w.CellX())), 0, 0, Max(1, Round(w.targetXy / w.CellY())))
      && r.matrix.p >= 1 && r.matrix.s >= 1
      && r.det == r.matrix.p * r.matrix.s == Det(r.matrix)
      && r.lx == r.matrix.p as real * w.CellX() && r.ly == r.matrix.s as real * w.CellY()
  {
    hide Search.Nz, Search.ErrorXyPct, Search.CellX, Search.CellY, Numeric.Round;
  }

  lemma EdgesPositive(w: Search)
    ensures w.CellX() > 0.0 && w.CellY() > 0.0
  {
  }

  /** Each edge of the diagonal supercell misses the target by at most one cell edge. */
  lemma DiagonalNear(w: Search)
    requires w.targetXy > 0.0
    ensures var r := w.DiagonalResult(None);
      AbsR(r.lx - w.targetXy) <= w.CellX() && AbsR(r.ly - w.targetXy) <= w.CellY()
  {
    hide *;
    EdgesPositive(w);
    DiagonalShape(w, None);
    var r := w.DiagonalResult(None);
    RoundedEdge(w.targetXy, w.CellX(), w.targetXy / w.CellX(), r.lx);
    RoundedEdge(w.targetXy, w.CellY(), w.targetXy / w.CellY(), r.ly);
  }

  lemma RoundedEdge(target: real, cell: real, ratio: real, edge: real)
    requires target > 0.0 && cell > 0.0 && ratio == target / cell && edge == Max(1, Round(ratio)) as real * cell
    ensures AbsR(edge - target) <= cell
  {
    hide Numeric.Round;
    assert ratio * cell == target;
    assert ratio <= 0.0 ==> ratio * cell <= 0.0;
    RoundNear(ratio);
    NearMultiple(Max(1, Round(ratio)) as real, ratio, cell);
  }

  lemma NearMultiple(n: real, ratio: real, cell: real)
    requires cell > 0.0 && AbsR(n - ratio) <= 1.0
    ensures AbsR(n * cell - ratio * cell) <= cell
  {
    WithinOne(n - ratio, cell);
    Difference(n, ratio, cell, n - ratio);
  }

  lemma WithinOne(d: real, cell: real)
    requires cell > 0.0 && AbsR(d) <= 1.0
    ensures AbsR(d * cell) <= cell
  {
    MulMono(d, 1.0, cell);
    MulMono(-1.0, d, cell);
  }

  lemma Difference(n: real, ratio: real, cell: real, d: real)
    requires d == n - ratio
    ensures n * cell - ratio * cell == d * cell
  {
  }

  lemma RoundNear(ratio: real)
    requires ratio > 0.0
    ensures AbsR(Max(1, Round(ratio)) as real - ratio) <= 1.0
  {
  }

  lemma RectangleArea(r: Supercell, x: real, y: real)
    requires r.matrix.p >= 1 && r.matrix.s >= 1 && r.det == r.matrix.p * r.matrix.s
    requires r.lx == r.matrix.p as real * x && r.ly == r.matrix.s as real * y
    ensures r.lx * r.ly == r.det as real * (x * y) && r.det >= 1
  {
    assert r.det as real == r.matrix.p as real * r.matrix.s as real;
    ProductOfProducts(r.matrix.p as real, x, r.matrix.s as real, y);
  }

  lemma ProductOfProducts(x: real, y: real, z: real, w: real)
    ensures (x * y) * (z * w) == (x * z) * (y * w)
  {
  }

  lemma SquareMono(x: real, y: real)
    requires 0.0 <= x <= y
    ensures 0.0 <= x * x <= y * y
  {
    MulMono(x, y, x);
    MulMono(x, y, y);
  }

  // ---------------------------------------------------------------- the search

  predicate IndexBefore(i: int, j: int, k: int, l: int) {
    i < k || (i == k && j < l)
  }

  // The candidate list: exactly the candidates, in scan order.
  ghost predicate IsCandidateList(w: Search, cands: seq<Candidate>)
    requires w.MinStep() > 0.0
  {
    && (forall k :: 0 <= k < |cands| ==>
          cands[k] == w.CandidateAt(cands[k].p, cands[k].q) && w.IsCandidate(cands[k].p, cands[k].q))
    && (forall p, q :: w.IsCandidate(p, q) ==> w.CandidateAt(p, q) in cands)
    && (forall k, l :: 0 <= k < l < |cands| ==> ScannedBefore((cands[k].p, cands[k].q), (cands[l].p, cands[l].q)))
  }

  // The candidates that the scan meets before (p, q), in scan order.
  ghost predicate ListedBefore(w: Search, cands: seq<Candidate>, p: int, q: int)
    requires w.MinStep() > 0.0
  {
    && (forall k :: 0 <= k < |cands| ==>
          cands[k] == w.CandidateAt(cands[k].p, cands[k].q) && w.IsCandidate(cands[k].p, cands[k].q)
          && ScannedBefore((cands[k].p, cands[k].q), (p, q)))
    && (forall i, j :: w.IsCandidate(i, j) && ScannedBefore((i, j), (p, q)) ==> w.CandidateAt(i, j) in cands)
    && (forall k, l :: 0 <= k < l < |cands| ==> ScannedBefore((cands[k].p, cands[k].q), (cands[l].p, cands[l].q)))
  }

  lemma ListedStep(w: Search, cands: seq<Candidate>, p: int, q: int)
    requires w.MinStep() > 0.0 && ListedBefore(w, cands, p, q)
    ensures ListedBefore(w, if w.IsCandidate(p, q) then cands + [w.CandidateAt(p, q)] else cands, p, q + 1)
  {
    hide Search.IsCandidate, Search.X, Search.Y, Search.MinStep;
  }

  lemma ListedRow(w: Search, cands: seq<Candidate>, p: int)
    requires w.MinStep() > 0.0 && ListedBefore(w, cands, p, w.Radius() + 1)
    ensures ListedBefore(w, cands, p + 1, -w.Radius())
  {
    hide Search.Radius, Search.CandidateAt, Search.MinStep, Search.Margin;
  }

  lemma ListedAll(w: Search, cands: seq<Candidate>)
    requires w.MinStep() > 0.0 && ListedBefore(w, cands, w.Radius() + 1, -w.Radius())
    ensures IsCandidateList(w, cands)
  {
    hide Search.Radius, Search.CandidateAt, Search.MinStep, Search.Margin;
  }

  lemma NoneListed(w: Search)
    requires w.MinStep() > 0.0
    ensures ListedBefore(w, [], -w.Radius(), -w.Radius()) && w.Radius() >= 1
  {
  }

  // The tests of the scan, for a point of the scanned square.
  lemma TestIs(w: Search, p: int, q: int)
    requires w.MinStep() > 0.0 && -w.Radius() <= p <= w.Radius() && -w.Radius() <= q <= w.Radius()
    ensures w.IsCandidate(p, q) <==> !(p == 0 && q == 0) && AbsR(w.CandidateAt(p, q).len - w.targetXy) <= w.Margin()
  {
    hide Search.Radius, Search.Margin, Search.MinStep, Search.X, Search.Y;
  }

  method CandidateVectors(w: Search) returns (cands: seq<Candidate>)
    requires w.MinStep() > 0.0
    ensures IsCandidateList(w, cands)
  {
    var radius, margin := w.Radius(), w.Margin();
    NoneListed(w);
    hide *;
    cands := [];
    var p := -radius;
    while p <= radius
      invariant -radius <= p <= radius + 1
      invariant ListedBefore(w, cands, p, -radius)
    {
      var q := -radius;
      while q <= radius
        invariant -radius <= q <= radius + 1
        invariant ListedBefore(w, cands, p, q)
      {
        ListedStep(w, cands, p, q);
        TestIs(w, p, q);
        if !(p == 0 && q == 0) {
          var v := w.CandidateAt(p, q);
          if AbsR(v.len - w.targetXy) <= margin {
            cands := cands + [v];
          }
        }
        q := q + 1;
      }
      ListedRow(w, cands, p);
      p := p + 1;
    }
    ListedAll(w, cands);
  }

  // Index (bi, bj) holds the accepted pair of least rank, first in scan order, among the pairs before (i, j).
  ghost predicate LeastBefore(cands: seq<Candidate>, accepts: (Candidate, Candidate) -> bool,
                              rank: (Candidate, Candidate) -> Rank, i: int, j: int, bi: int, bj: int)
  {
    && 0 <= bi < |cands| && 0 <= bj < |cands|
    && IndexBefore(bi, bj, i, j)
    && accepts(cands[bi], cands[bj])
    && forall k, l :: 0 <= k < |cands| && 0 <= l < |cands| && IndexBefore(k, l, i, j) && accepts(cands[k], cands[l]) ==>
         || RankLess(rank(cands[bi], cands[bj]), rank(cands[k], cands[l]))
         || (rank(cands[bi], cands[bj]) == rank(cands[k], cands[l]) && !IndexBefore(k, l, bi, bj))
  }

  ghost predicate NoneBefore(cands: seq<Candidate>, accepts: (Candidate, Candidate) -> bool, i: int, j: int) {
    forall k, l :: 0 <= k < |cands| && 0 <= l < |cands| && IndexBefore(k, l, i, j) ==> !accepts(cands[k], cands[l])
  }

  lemma LeastKept(cands: seq<Candidate>, accepts: (Candidate, Candidate) -> bool, rank: (Candidate, Candidate) -> Rank,
                  i: nat, j: nat, bi: int, bj: int)
    requires i < |cands| && j < |cands|
    requires LeastBefore(cands, accepts, rank, i, j, bi, bj)
    requires accepts(cands[i], cands[j]) ==> !RankLess(rank(cands[i], cands[j]), rank(cands[bi], cands[bj]))
    ensures LeastBefore(cands, accepts, rank, i, j + 1, bi, bj)
  {
  }

  lemma LeastReplaced(cands: seq<Candidate>, accepts: (Candidate, Candidate) -> bool,
                      rank: (Candidate, Candidate) -> Rank, i: nat, j: nat, bi: int, bj: int)
    requires i < |cands| && j < |cands| && accepts(cands[i], cands[j])
    requires LeastBefore(cands, accepts, rank, i, j, bi, bj)
    requires RankLess(rank(cands[i], cands[j]), rank(cands[bi], cands[bj]))
    ensures LeastBefore(cands, accepts, rank, i, j + 1, i, j)
  {
    forall k, l | 0 <= k < |cands| && 0 <= l < |cands| && IndexBefore(k, l, i, j + 1) && accepts(cands[k], cands[l])
      ensures (k, l) == (i, j) || RankLess(rank(cands[i], cands[j]), rank(cands[k], cands[l]))
    {
      if (k, l) != (i, j) {
        RankLessTransitive(rank(cands[i], cands[j]), rank(cands[bi], cands[bj]), rank(cands[k], cands[l]));
      }
    }
  }

  lemma RankLessTransitive(a: Rank, b: Rank, c: Rank)
    requires RankLess(a, b) && (RankLess(b, c) || b == c)
    ensures RankLess(a, c)
  {
  }

  // The nested loop over all ordered pairs of candidates, for any filter and any ranking.
  method BestPair(cands: seq<Candidate>, accepts: (Candidate, Candidate) -> bool, rank: (Candidate, Candidate) -> Rank)
    returns (best: Option<(int, int)>)
    ensures best.None? ==> NoneBefore(cands, accepts, |cands|, 0)
    ensures best.Some? ==> LeastBefore(cands, accepts, rank, |cands|, 0, best.value.0, best.value.1)
  {
    hide RankLess;
    best := None;
    var bestRank := Rank(0.0, 0, 0.0, 0);
    var i := 0;
    while i < |cands|
      invariant 0 <= i <= |cands|
      invariant best.None? ==> NoneBefore(cands, accepts, i, 0)
      invariant best.Some? ==>
        && LeastBefore(cands, accepts, rank, i, 0, best.value.0, best.value.1)
        && bestRank == rank(cands[best.value.0], cands[best.value.1])
    {
      var j := 0;
      while j < |cands|
        invariant 0 <= j <= |cands|
        invariant best.None? ==> NoneBefore(cands, accepts, i, j)
        invariant best.Some? ==>
          && LeastBefore(cands, accepts, rank, i, j, best.value.0, best.value.1)
          && bestRank == rank(cands[best.value.0], cands[best.value.1])
      {
        if accepts(cands[i], cands[j]) {
          var newRank := rank(cands[i], cands[j]);
          if best.None? || RankLess(newRank, bestRank) {
            if best.Some? {
              LeastReplaced(cands, accepts, rank, i, j, best.value.0, best.value.1);
            }
            bestRank, best := newRank, Some((i, j));
          } else {
            LeastKept(cands, accepts, rank, i, j, best.value.0, best.value.1);
          }
        }
        j := j + 1;
      }
      i := i + 1;
    }
  }

  function Filter(w: Search): (Candidate, Candidate) -> bool {
    (u, v) => w.Accepts(u, v)
  }

  function Ranking(w: Search): (Candidate, Candidate) -> Rank
    requires w.targetXy > 0.0
  {
    (u, v) => w.RankOf(u, v)
  }

  lemma LeastIsBest(w: Search, cands: seq<Candidate>, bi: int, bj: int)
    requires w.MinStep() > 0.0 && w.targetXy > 0.0
    requires IsCandidateList(w, cands) && LeastBefore(cands, Filter(w), Ranking(w), |cands|, 0, bi, bj)
    ensures w.IsBest(Matrix(cands[bi].p, cands[bi].q, cands[bj].p, cands[bj].q))
  {
    var m := Matrix(cands[bi].p, cands[bi].q, cands[bj].p, cands[bj].q);
    forall n | w.IsAcceptable(n) && n != m
      ensures w.Precedes(m, n)
    {
      var k :| 0 <= k < |cands| && cands[k] == w.CandidateAt(n.p, n.q);
      var l :| 0 <= l < |cands| && cands[l] == w.CandidateAt(n.r, n.s);
      assert IndexBefore(k, l, |cands|, 0);
      if !RankLess(w.MatrixRank(m), w.MatrixRank(n)) {
        assert (k, l) != (bi, bj);
        assert IndexBefore(bi, bj, k, l);
      }
    }
  }

  lemma NoneAcceptable(w: Search, cands: seq<Candidate>, n: Matrix)
    requires w.MinStep() > 0.0
    requires IsCandidateList(w, cands) && NoneBefore(cands, Filter(w), |cands|, 0)
    ensures !w.IsAcceptable(n)
  {
    if w.IsAcceptable(n) {
      var k :| 0 <= k < |cands| && cands[k] == w.CandidateAt(n.p, n.q);
      var l :| 0 <= l < |cands| && cands[l] == w.CandidateAt(n.r, n.s);
      assert IndexBefore(k, l, |cands|, 0);
    }
  }

  /** At most one matrix can be best, so the search is deterministic. */
  lemma BestIsUnique(w: Search, m: Matrix, n: Matrix)
    requires w.MinStep() > 0.0 && w.targetXy > 0.0
    requires w.IsBest(m) && w.IsBest(n)
    ensures m == n
  {
    hide Search.IsAcceptable, Search.MatrixRank;
    assert m == n || w.Precedes(m, n);
  }

  lemma BestIsAcceptable(w: Search, m: Matrix)
    ensures w.MinStep() > 0.0 && w.targetXy > 0.0 && w.IsBest(m) ==> w.IsAcceptable(m)
  {
  }

  // The one result the conditions above leave.
  ghost function Optimal(w: Search): Result<Supercell, SearchError> {
    if w.targetXy <= 0.0 then Failure(TargetXyNotPositive)
    else if w.targetZ <= 0.0 then Failure(TargetZNotPositive)
    else if w.IsRightAngled() then Success(w.DiagonalResult(None))
    else if w.MinStep() <= TINY then Failure(UnsupportedGamma)
    else if exists m :: w.IsBest(m) && w.BeatsDiagonal(m) then
      var m :| w.IsBest(m) && w.BeatsDiagonal(m);
      Success(w.MatrixResult(m))
    else if forall p, q :: !w.IsCandidate(p, q) then Success(w.DiagonalResult(Some(NoCandidateVectors)))
    else if forall m :: !w.IsAcceptable(m) then Success(w.DiagonalResult(Some(NoOrthogonalCandidate)))
    else Success(w.DiagonalResult(Some(NoBetterOrthogonalCandidate)))
  }

  /** The search returns the least-ranked acceptable matrix when it beats the diagonal supercell, and the diagonal
      supercell with the matching reason otherwise; the result never has a larger error than the diagonal one. */
  method FindOptimalSupercell(w: Search) returns (res: Result<Supercell, SearchError>)
    ensures w.targetXy <= 0.0 <==> res == Failure(TargetXyNotPositive)
    ensures w.targetXy > 0.0 && w.targetZ <= 0.0 <==> res == Failure(TargetZNotPositive)
    ensures w.targetXy > 0.0 && w.targetZ > 0.0 && !w.IsRightAngled() && w.MinStep() <= TINY
      <==> res == Failure(UnsupportedGamma)
    ensures res.Success? ==> res.value.errorXyPct <= w.DiagonalResult(None).errorXyPct
    ensures res.Success? && w.IsRightAngled() ==> res.value == w.DiagonalResult(None)
    ensures res.Success? && !w.IsRightAngled() ==>
      && (res.value.fallback == None <==> exists m :: w.IsBest(m) && w.BeatsDiagonal(m))
      && (res.value.fallback == None ==> w.IsBest(res.value.matrix) && res.value == w.MatrixResult(res.value.matrix))
      && (res.value.fallback != None ==> res.value == w.DiagonalResult(res.value.fallback))
      && (res.value.fallback == Some(NoCandidateVectors) <==> forall p, q :: !w.IsCandidate(p, q))
      && (res.value.fallback in {Some(NoCandidateVectors), Some(NoOrthogonalCandidate)}
          <==> forall m :: !w.IsAcceptable(m))
    ensures res == Optimal(w)
  {
    hide Search.ErrorXyPct, Search.Nz, Search.OrthogonalityError, Search.RankOf, Search.X, Search.Y, NoneBefore;
    if w.targetXy <= 0.0 {
      return Failure(TargetXyNotPositive);
    }
    if w.targetZ <= 0.0 {
      return Failure(TargetZNotPositive);
    }
    if w.IsRightAngled() {
      return Success(w.DiagonalResult(None));
    }
    if w.MinStep() <= TINY {
      return Failure(UnsupportedGamma);
    }
    var cands := CandidateVectors(w);
    if |cands| == 0 {
      return Success(w.DiagonalResult(Some(NoCandidateVectors)));
    }
    assert w.IsCandidate(cands[0].p, cands[0].q);
    var best := BestPair(cands, Filter(w), Ranking(w));
    var diagonal := w.DiagonalResult(Some(NoBetterOrthogonalCandidate));
    if best.None? {
      forall m ensures !w.IsAcceptable(m) {
        NoneAcceptable(w, cands, m);
      }
      return Success(w.DiagonalResult(Some(NoOrthogonalCandidate)));
    }
    var (bi, bj) := best.value;
    LeastIsBest(w, cands, bi, bj);
    var result := w.PairResult(cands[bi], cands[bj]);
    var m := result.matrix;
    if result.errorXyPct + 0.000001 < diagonal.errorXyPct {
      assert w.BeatsDiagonal(m);
      forall n | w.IsBest(n) ensures n == m {
        BestIsUnique(w, m, n);
      }
      return Success(result);
    }
    forall n | w.IsBest(n) ensures !w.BeatsDiagonal(n) {
      BestIsUnique(w, m, n);
    }
    return Success(diagonal);
  }
}
