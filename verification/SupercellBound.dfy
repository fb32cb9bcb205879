/** When the result of the supercell search respects the bound on the number of cells, and when it does not. */
module SupercellBound {
  import opened Common
  import opened Numeric
  import opened Sublattice
  import opened SupercellSearch

  // The number of cells of the diagonal supercell.
  function DiagonalCount(w: Search): int {
    Max(1, Round(w.targetXy / w.CellX())) * Max(1, Round(w.targetXy / w.CellY()))
  }

  lemma DiagonalDet(w: Search, reason: Option<Fallback>)
    ensures w.DiagonalResult(reason).det == DiagonalCount(w)
  {
    DiagonalShape(w, reason);
  }

  /** Exactly when a result has more cells than the bound allows: the diagonal supercell has, and is returned, either
      because the cell is right-angled or because no best matrix beats it. */
  lemma BoundBrokenIff(w: Search)
    ensures Optimal(w).Success? ==> (Optimal(w).value.det > w.maxCells <==>
      && DiagonalCount(w) > w.maxCells
      && (w.IsRightAngled() || forall m :: w.IsBest(m) ==> !w.BeatsDiagonal(m)))
  {
    hide Search.DiagonalResult, DiagonalCount, Search.OrthogonalityError, Search.BeatsDiagonal;
    DiagonalDet(w, None);
    DiagonalDet(w, Some(NoCandidateVectors));
    DiagonalDet(w, Some(NoOrthogonalCandidate));
    DiagonalDet(w, Some(NoBetterOrthogonalCandidate));
    if Optimal(w).Success? && !w.IsRightAngled() && exists m :: w.IsBest(m) && w.BeatsDiagonal(m) {
      var m :| w.IsBest(m) && w.BeatsDiagonal(m);
      forall n | w.IsBest(n) ensures n == m {
        BestIsUnique(w, m, n);
      }
    }
  }

  /** A caller who checks the diagonal count in advance gets a result within the bound. */
  lemma BoundKept(w: Search)
    requires DiagonalCount(w) <= w.maxCells
    ensures Optimal(w).Success? ==> Optimal(w).value.det <= w.maxCells
  {
    BoundBrokenIff(w);
  }

  /** On every lattice, whatever the bound, some target makes the search itself return more cells than the bound. */
  lemma DiagonalUnbounded(w: Search) returns (big: Search)
    requires w.WellFormed() && w.targetZ > 0.0 && w.tol < 1.0 && (w.IsRightAngled() || w.MinStep() > TINY)
    ensures big == w.(targetXy := big.targetXy)
    ensures Optimal(big).Success? && Optimal(big).value.det > w.maxCells
  {
    hide *;
    var step, reach := MaxR(w.CellX(), w.CellY()), Reach(w);
    ReachFacts(w);
    CellsPositive(w);
    big := w.(targetXy := step + reach);
    BigFacts(w, big);
    SameReach(w, big);
    SearchSucceeds(big);
    DiagonalWithinStep(big, step);
    DiagonalCountLarge(big, w.maxCells, reach);
    if !w.IsRightAngled() {
      forall m | big.IsBest(m) ensures !big.BeatsDiagonal(m) {
        if big.BeatsDiagonal(m) {
          BestIsAcceptable(big, m);
          LongPairTooLarge(big, m, step, reach);
        }
      }
    }
    BoundBrokenIff(big);
  }

  // How far beyond one cell the target has to lie.
  function Reach(w: Search): real {
    1.0 + AreaCap(w) + Abs(w.maxCells) as real * (w.CellX() * w.CellY())
  }

  // No accepted pair that long encloses more.
  function AreaCap(w: Search): real {
    CapOf(w.CellAreas(w.maxCells), w.tol)
  }

  function CapOf(c: real, t: real): real {
    if 0.0 <= t < 1.0 then Quotient(c * c, 1.0 - t * t) else 0.0
  }

  function Quotient(x: real, y: real): real {
    if y == 0.0 then 0.0 else x / y
  }

  lemma CellsPositive(w: Search)
    ensures w.CellX() > 0.0 && w.CellY() > 0.0 && MaxR(w.CellX(), w.CellY()) > 0.0
    ensures w.CellX() * w.CellY() > 0.0
  {
    hide Search.CellX, Search.CellY;
    EdgesPositive(w);
    assert w.CellX() * w.CellY() > 0.0;
  }

  lemma ReachFacts(w: Search)
    ensures Reach(w) >= 1.0 && Reach(w) > AreaCap(w)
    ensures Reach(w) > Abs(w.maxCells) as real * (w.CellX() * w.CellY())
  {
    hide CapOf, Search.CellX, Search.CellY, Search.CellAreas;
    CellsPositive(w);
    CapFacts(w.CellAreas(w.maxCells), w.tol);
    assert Abs(w.maxCells) as real * (w.CellX() * w.CellY()) >= 0.0;
  }

  lemma CapFacts(c: real, t: real)
    ensures CapOf(c, t) >= 0.0
    ensures 0.0 <= t < 1.0 ==> t * t < 1.0 && CapOf(c, t) * (1.0 - t * t) == c * c
  {
    if 0.0 <= t < 1.0 {
      assert t * t <= t * 1.0;
      var d, n := 1.0 - t * t, c * c;
      assert d > 0.0 && n >= 0.0;
      var q := n / d;
      assert q * d == n;
      assert q < 0.0 ==> q * d < 0.0;
    }
  }

  // Only the target differs.
  lemma BigFacts(w: Search, big: Search)
    requires big == w.(targetXy := big.targetXy) && w.WellFormed()
    ensures big.WellFormed() && big.MinStep() == w.MinStep() && (big.IsRightAngled() <==> w.IsRightAngled())
    ensures big.CellX() == w.CellX() && big.CellY() == w.CellY()
    ensures big.CellAreas(big.maxCells) == w.CellAreas(w.maxCells)
  {
    SameVectors(w, big);
    hide Search.WellFormed;
  }

  lemma SameVectors(w: Search, big: Search)
    requires big == w.(targetXy := big.targetXy) && w.WellFormed()
    ensures big.WellFormed()
  {
    hide Search.IsLength;
    forall p, q ensures big.IsLength(p, q) {
      assert w.IsLength(p, q);
      SameLength(w, big, p, q);
    }
  }

  lemma SameLength(w: Search, big: Search, p: int, q: int)
    requires big == w.(targetXy := big.targetXy) && w.IsLength(p, q)
    ensures big.IsLength(p, q)
  {
    SameVector(w, big, p, q);
    hide Search.X, Search.Y;
  }

  lemma SameVector(w: Search, big: Search, p: int, q: int)
    requires big == w.(targetXy := big.targetXy)
    ensures big.X(p, q) == w.X(p, q) && big.Y(p, q) == w.Y(p, q)
  {
  }

  lemma SameReach(w: Search, big: Search)
    requires big.maxCells == w.maxCells && big.tol == w.tol
    requires big.CellX() == w.CellX() && big.CellY() == w.CellY()
    requires big.CellAreas(big.maxCells) == w.CellAreas(w.maxCells)
    ensures Reach(big) == Reach(w)
  {
    hide Search.CellX, Search.CellY, Search.CellAreas, CapOf;
  }

  lemma SearchSucceeds(w: Search)
    requires w.targetXy > 0.0 && w.targetZ > 0.0 && (w.IsRightAngled() || w.MinStep() > TINY)
    ensures Optimal(w).Success? && (!w.IsRightAngled() ==> w.MinStep() > 0.0)
  {
    hide Search.DiagonalResult, Search.IsBest, Search.BeatsDiagonal, Search.IsAcceptable, Search.IsCandidate,
         Search.IsRightAngled, Search.MinStep;
  }

  // The edges of the diagonal supercell lie within the longer cell edge of the target.
  lemma DiagonalWithinStep(w: Search, step: real)
    requires w.targetXy > 0.0 && step == MaxR(w.CellX(), w.CellY())
    ensures var r := w.DiagonalResult(None);
      AbsR(r.lx - w.targetXy) <= step && AbsR(r.ly - w.targetXy) <= step
  {
    hide Search.DiagonalResult, Search.CellX, Search.CellY, Numeric.AbsR;
    DiagonalNear(w);
  }

  lemma DiagonalCountLarge(w: Search, bound: int, reach: real)
    requires reach >= 1.0 && reach > Abs(bound) as real * (w.CellX() * w.CellY())
    requires var r, step := w.DiagonalResult(None), MaxR(w.CellX(), w.CellY());
      w.targetXy == step + reach && AbsR(r.lx - w.targetXy) <= step && AbsR(r.ly - w.targetXy) <= step
    ensures DiagonalCount(w) > bound
  {
    hide *;
    DiagonalDet(w, None);
    DiagonalArea(w, None);
    CellsPositive(w);
    var r := w.DiagonalResult(None);
    LongEdge(r.lx, w.targetXy, MaxR(w.CellX(), w.CellY()), reach);
    LongEdge(r.ly, w.targetXy, MaxR(w.CellX(), w.CellY()), reach);
    CountOver(r.det, Abs(bound), r.lx, r.ly, w.CellX() * w.CellY(), reach);
    AbsAtLeast(bound);
  }

  lemma LongEdge(l: real, target: real, step: real, reach: real)
    requires target == step + reach && AbsR(l - target) <= step
    ensures l >= reach
  {
  }

  lemma AbsAtLeast(n: int)
    ensures Abs(n) >= n
  {
  }

  lemma CountOver(n: int, bound: int, lx: real, ly: real, cell: real, reach: real)
    requires lx >= reach >= 1.0 && ly >= reach && cell > 0.0
    requires lx * ly == n as real * cell && reach > bound as real * cell
    ensures n > bound
  {
    LongSides(lx, ly, reach);
    if n <= bound {
      MulMono(n as real, bound as real, cell);
    }
  }

  lemma LongSides(x: real, y: real, reach: real)
    requires x >= reach >= 1.0 && y >= reach
    ensures x * y >= reach && x * y >= 1.0
  {
    MulMono(reach, y, x);
    MulMono(1.0, x, reach);
  }

  // A matrix whose edges are as close to a far target as those of the diagonal supercell encloses too much area.
  lemma LongPairTooLarge(w: Search, m: Matrix, step: real, reach: real)
    requires w.WellFormed() && w.MinStep() > 0.0 && w.tol < 1.0 && w.IsAcceptable(m)
    requires reach == Reach(w) && reach >= 1.0 && step > 0.0 && w.targetXy == step + reach
    requires var d := w.DiagonalResult(None);
      AbsR(d.lx - w.targetXy) <= step && AbsR(d.ly - w.targetXy) <= step
    ensures !w.BeatsDiagonal(m)
  {
    hide *;
    var d, r := w.DiagonalResult(None), w.MatrixResult(m);
    if w.BeatsDiagonal(m) {
      BeatingMeans(w, m);
      CloserEdges(w, r.lx, r.ly, d.lx, d.ly, step);
      LongEdge(r.lx, w.targetXy, step, reach);
      LongEdge(r.ly, w.targetXy, step, reach);
      ReachFacts(w);
      AcceptedFacts(w, m);
      TooLarge(w, m, reach);
    }
  }

  lemma TooLarge(w: Search, m: Matrix, reach: real)
    requires w.WellFormed() && w.MinStep() > 0.0 && 0.0 <= w.tol < 1.0 && w.IsAcceptable(m)
    requires reach >= 1.0 && reach > AreaCap(w)
    requires w.MatrixResult(m).lx >= reach && w.MatrixResult(m).ly >= reach
    ensures w.CellAreas(w.maxCells) * w.CellAreas(w.maxCells)
      < w.CellAreas(w.MatrixResult(m).det) * w.CellAreas(w.MatrixResult(m).det)
  {
    hide *;
    var r := w.MatrixResult(m);
    var area := r.lx * r.ly;
    LongSides(r.lx, r.ly, reach);
    TinyIsSmall();
    AcceptedArea(w, m);
    CapIs(w);
    AreaAgainstCap(area, w.tol, w.CellAreas(r.det), w.CellAreas(w.maxCells));
  }

  lemma UnitSquare(t: real)
    requires 0.0 <= t < 1.0
    ensures t * t < 1.0
  {
    MulMono(t, 1.0, t);
  }

  lemma TinyIsSmall()
    ensures TINY <= 1.0
  {
  }

  lemma CapIs(w: Search)
    ensures AreaCap(w) == CapOf(w.CellAreas(w.maxCells), w.tol)
  {
  }

  lemma BeatingMeans(w: Search, m: Matrix)
    ensures var r, d := w.MatrixResult(m), w.DiagonalResult(None);
      w.BeatsDiagonal(m) ==> w.ErrorXyPct(r.lx, r.ly) < w.ErrorXyPct(d.lx, d.ly)
  {
    hide Search.ErrorXyPct, Search.Nz, Search.OrthogonalityError, Search.X, Search.Y, Numeric.Round;
  }

  lemma CloserEdges(w: Search, lx: real, ly: real, dx: real, dy: real, step: real)
    requires w.targetXy >= 1.0 && w.ErrorXyPct(lx, ly) < w.ErrorXyPct(dx, dy)
    requires AbsR(dx - w.targetXy) <= step && AbsR(dy - w.targetXy) <= step
    ensures AbsR(lx - w.targetXy) <= step && AbsR(ly - w.targetXy) <= step
  {
    var t := w.targetXy;
    var near, far := MaxR(AbsR(lx - t), AbsR(ly - t)), MaxR(AbsR(dx - t), AbsR(dy - t));
    QuotientOrder(near, far, t);
  }

  lemma QuotientOrder(x: real, y: real, t: real)
    requires t > 0.0 && x / t * 100.0 < y / t * 100.0
    ensures x < y
  {
    assert (x / t) * t == x && (y / t) * t == y;
    assert (y / t - x / t) * t > 0.0;
  }

  lemma AcceptedFacts(w: Search, m: Matrix)
    requires w.MinStep() > 0.0 && w.IsAcceptable(m)
    ensures w.tol >= 0.0
    ensures w.CellAreas(w.MatrixResult(m).det) * w.CellAreas(w.MatrixResult(m).det)
      <= w.CellAreas(w.maxCells) * w.CellAreas(w.maxCells)
  {
    hide *;
    PairFacts(w, m);
    DotBound(w, w.CandidateAt(m.p, m.q), w.CandidateAt(m.r, m.s));
    DetRange(w, m);
    MoreCells(w, Det(m), w.maxCells);
  }

  lemma MoreCells(w: Search, n: int, k: int)
    requires 0 < n <= k
    ensures w.CellAreas(n) * w.CellAreas(n) <= w.CellAreas(k) * w.CellAreas(k)
  {
    FewerCells(n, k, w.a * (w.b * w.sinG));
  }

  lemma FewerCells(n: int, k: int, area: real)
    requires 0 < n <= k
    ensures (n as real * area) * (n as real * area) <= (k as real * area) * (k as real * area)
  {
    SquareOfProduct(n as real, area);
    SquareOfProduct(k as real, area);
    SquareMono(n as real, k as real);
    MulMono(n as real * n as real, k as real * k as real, area * area);
  }

  lemma AreaAgainstCap(area: real, tol: real, cells: real, most: real)
    requires 0.0 <= tol < 1.0 && area >= 1.0 && area > CapOf(most, tol)
    requires (1.0 - tol * tol) * (area * area) <= cells * cells
    ensures most * most < cells * cells
  {
    var cap := CapOf(most, tol);
    CapFacts(most, tol);
    UnitSquare(tol);
    hide CapOf;
    AboveCap(area, area * area, cap, 1.0 - tol * tol, most * most);
  }

  lemma AboveCap(area: real, square: real, cap: real, f: real, most: real)
    requires square == area * area && area >= 1.0 && area > cap && f > 0.0 && cap * f == most
    ensures most < f * square
  {
    MulMono(1.0, area, area);
    var d := square - cap;
    assert d > 0.0;
    assert d * f == square * f - cap * f;
    assert d * f > 0.0;
  }
}
