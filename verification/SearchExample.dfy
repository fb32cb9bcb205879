/** A search that reports no better orthogonal candidate although there is one. */
module SearchExample {
  import opened Common
  import opened Numeric
  import opened Sublattice
  import opened SupercellSearch
  import opened SearchRadius
  import opened SearchOptimality

  // On this cell the lattice is that of all (i, 3 j), with i = p + 4 q and j = q.
  ghost predicate IsExample(w: Search) {
    && w.WellFormed() && w.a == 1.0 && w.b == 5.0 && w.cosG == 0.8 && w.sinG == 0.6
    && w.targetXy == 5.0 && w.targetZ > 0.0 && w.maxCells == 200 && w.tol == 0.00000001 && !w.IsRightAngled()
  }

  const Chosen := Matrix(-8, 2, -5, 0)
  const Better := Matrix(-7, 1, 1, -1)

  /** A search with the default bound and tolerance that reports no better orthogonal candidate although one exists: the
      rank adds up both squared deviations, while the comparison takes the larger one. */
  lemma ReasonCanBeWrong(w: Search)
    requires IsExample(w)
    ensures Optimal(w).Success? && Optimal(w).value.fallback == Some(NoBetterOrthogonalCandidate)
    ensures w.MinStep() > 0.0 && w.IsAcceptable(Better) && w.BeatsDiagonal(Better)
  {
    hide *;
    ExampleFacts(w);
    ExampleAcceptable(w);
    ExampleBetter(w);
    SearchesFacts(w);
    SearchReturns(w);
    if Optimal(w).value.fallback == None {
      ExampleBest(w, Optimal(w).value.matrix);
    }
  }

  lemma ExampleFacts(w: Search)
    requires IsExample(w)
    ensures Searches(w) && w.MinStep() == 1.0 && w.Radius() == 8 && w.Margin() == 10.0
    ensures w.CellX() == 1.0 && w.CellY() == 3.0 && w.targetXy == 5.0 && w.maxCells == 200 && w.tol == 0.00000001
  {
    assert w.b * w.sinG == 3.0;
    assert w.targetXy / w.MinStep() == 5.0;
  }

  lemma ExampleVector(w: Search, p: int, q: int, i: int, j: int)
    requires IsExample(w) && i == p + 4 * q && j == 3 * q
    ensures w.X(p, q) == i as real && w.Y(p, q) == j as real
    ensures w.norm(p, q) >= 0.0 && w.norm(p, q) * w.norm(p, q) == (i * i + j * j) as real
  {
    assert w.IsLength(p, q);
    hide Search.WellFormed;
    assert w.b * w.cosG == 4.0 && w.b * w.sinG == 3.0;
    IntegerSquares(i, j);
  }

  lemma IntegerSquares(i: int, j: int)
    ensures i as real * i as real + j as real * j as real == (i * i + j * j) as real
  {
  }

  lemma ExampleLengths(w: Search)
    requires IsExample(w)
    ensures w.norm(-8, 2) == 6.0 && w.norm(-5, 0) == 5.0
    ensures 4.1 <= w.norm(-7, 1) <= 5.0 && 4.1 <= w.norm(1, -1) <= 5.0
  {
    hide *;
    ExampleVector(w, -8, 2, 0, 6);
    ExampleVector(w, -5, 0, -5, 0);
    ExampleVector(w, -7, 1, -3, 3);
    ExampleVector(w, 1, -1, -3, -3);
    EqualRoots(w.norm(-8, 2), 6.0);
    EqualRoots(w.norm(-5, 0), 5.0);
    RootBetween(w.norm(-7, 1), 4.1, 5.0);
    RootBetween(w.norm(1, -1), 4.1, 5.0);
  }

  lemma RootBetween(x: real, lo: real, hi: real)
    requires x >= 0.0 && 0.0 <= lo && 0.0 <= hi && lo * lo <= x * x <= hi * hi
    ensures lo <= x <= hi
  {
    if x < lo {
      StrictSquare(x, lo);
    }
    if hi < x {
      StrictSquare(hi, x);
    }
  }

  lemma ExampleAcceptable(w: Search)
    requires IsExample(w)
    ensures w.MinStep() > 0.0 && w.IsAcceptable(Chosen) && w.IsAcceptable(Better)
  {
    hide IsExample, Search.IsAcceptable, Search.X, Search.Y, Search.MinStep, Search.Radius, Search.Margin;
    ExampleFacts(w);
    ExampleLengths(w);
    ExampleVector(w, -8, 2, 0, 6);
    ExampleVector(w, -5, 0, -5, 0);
    ExampleVector(w, -7, 1, -3, 3);
    ExampleVector(w, 1, -1, -3, -3);
    OrthogonalRows(w, Chosen);
    OrthogonalRows(w, Better);
  }

  lemma OrthogonalRows(w: Search, m: Matrix)
    requires w.MinStep() > 0.0 && w.Radius() == 8 && w.Margin() == 10.0 && w.targetXy == 5.0
    requires w.tol >= 0.0 && 0 < Det(m) <= w.maxCells
    requires Abs(m.p) <= 8 && Abs(m.q) <= 8 && Abs(m.r) <= 8 && Abs(m.s) <= 8
    requires w.X(m.p, m.q) * w.X(m.r, m.s) + w.Y(m.p, m.q) * w.Y(m.r, m.s) == 0.0
    requires 0.0 <= w.norm(m.p, m.q) <= 15.0 && 0.0 <= w.norm(m.r, m.s) <= 15.0
    ensures w.IsAcceptable(m)
  {
    hide Search.X, Search.Y, Search.MinStep, Search.Radius, Search.Margin;
    assert !(m.p == 0 && m.q == 0) && !(m.r == 0 && m.s == 0);
    assert w.Dot(w.CandidateAt(m.p, m.q), w.CandidateAt(m.r, m.s)) == 0.0;
  }

  lemma ExampleBetter(w: Search)
    requires IsExample(w)
    ensures w.BeatsDiagonal(Better) && DiagonalDeviation(w) == 1.0
  {
    hide *;
    ExampleFacts(w);
    ExampleLengths(w);
    ExampleDiagonal(w);
    BeatsIs(w, Better);
    MatrixErrorIs(w, Better);
    DiagonalErrorIs(w);
  }

  lemma ExampleDiagonal(w: Search)
    requires IsExample(w)
    ensures DiagonalDeviation(w) == 1.0 && DeviationOf(w, Better) <= 0.9 && Scale(w) == 5.0
  {
    hide *;
    ExampleFacts(w);
    ExampleLengths(w);
    DiagonalShape(w, None);
    ExampleCounts(w);
    ExampleDeviations(w, w.DiagonalResult(None).lx, w.DiagonalResult(None).ly);
  }

  lemma ExampleDeviations(w: Search, dx: real, dy: real)
    requires w.targetXy == 5.0 && dx == 5.0 && dy == 6.0
    requires dx == w.DiagonalResult(None).lx && dy == w.DiagonalResult(None).ly
    requires 4.1 <= w.norm(-7, 1) <= 5.0 && 4.1 <= w.norm(1, -1) <= 5.0
    ensures DiagonalDeviation(w) == 1.0 && DeviationOf(w, Better) <= 0.9 && Scale(w) == 5.0
  {
    hide Search.DiagonalResult;
  }

  lemma ExampleCounts(w: Search)
    requires w.targetXy == 5.0 && w.CellX() == 1.0 && w.CellY() == 3.0
    ensures Max(1, Round(w.targetXy / w.CellX())) == 5 && Max(1, Round(w.targetXy / w.CellY())) == 2
  {
    hide Search.CellX, Search.CellY;
  }

  // A best matrix does not beat the diagonal: one that does has two edges of length sqrt(18), and the rank puts the
  // chosen matrix first.
  lemma ExampleBest(w: Search, m: Matrix)
    requires IsExample(w) && w.MinStep() > 0.0 && w.targetXy > 0.0 && w.IsBest(m)
    ensures !w.BeatsDiagonal(m)
  {
    hide *;
    ExampleFacts(w);
    if w.BeatsDiagonal(m) {
      BeaterDeviatesLess(w, m);
      ExampleDiagonal(w);
      EdgesDeviate(w, m);
      BestIsAcceptable(w, m);
      ExampleEdges(w, m, w.norm(m.p, m.q), w.norm(m.r, m.s));
      ExampleAcceptable(w);
      BestDistance(w, m, Chosen);
      CloserMeansLess(w, m, Chosen);
      ExampleSums(w, m);
    }
  }

  lemma ExampleEdges(w: Search, m: Matrix, lx: real, ly: real)
    requires IsExample(w) && w.MinStep() > 0.0 && w.IsAcceptable(m)
    requires lx == w.norm(m.p, m.q) && ly == w.norm(m.r, m.s)
    requires AbsR(lx - w.targetXy) < 1.0 && AbsR(ly - w.targetXy) < 1.0
    ensures lx * lx == 18.0 && ly * ly == 18.0
  {
    hide *;
    ExampleFacts(w);
    var i, k := m.p + 4 * m.q, m.r + 4 * m.s;
    ExampleVector(w, m.p, m.q, i, 3 * m.q);
    ExampleVector(w, m.r, m.s, k, 3 * m.s);
    EdgeWindow(w, lx);
    EdgeWindow(w, ly);
    ExampleDot(w, m, lx, ly);
    ProductsOf(w, w.CandidateAt(m.p, m.q), w.CandidateAt(m.r, m.s));
    CandidateIs(w, m.p, m.q);
    CandidateIs(w, m.r, m.s);
    IntegerDot(i, 3 * m.q, k, 3 * m.s, w.Dot(w.CandidateAt(m.p, m.q), w.CandidateAt(m.r, m.s)));
    IntegerPairs(i, m.q, k, m.s);
  }

  lemma CandidateIs(w: Search, p: int, q: int)
    ensures w.CandidateAt(p, q) == Candidate(p, q, w.X(p, q), w.Y(p, q), w.norm(p, q))
  {
    hide Search.X, Search.Y;
  }

  lemma EdgeWindow(w: Search, l: real)
    requires w.targetXy == 5.0 && AbsR(l - w.targetXy) < 1.0
    ensures 4.0 < l < 6.0 && 16.0 < l * l < 36.0
  {
    StrictSquare(4.0, l);
    StrictSquare(l, 6.0);
  }

  lemma ExampleDot(w: Search, m: Matrix, lx: real, ly: real)
    requires w.MinStep() > 0.0 && w.IsAcceptable(m) && w.tol == 0.00000001
    requires lx == w.norm(m.p, m.q) && ly == w.norm(m.r, m.s) && 4.0 < lx < 6.0 && 4.0 < ly < 6.0
    ensures AbsR(w.Dot(w.CandidateAt(m.p, m.q), w.CandidateAt(m.r, m.s))) < 1.0
  {
    hide *;
    var u, v := w.CandidateAt(m.p, m.q), w.CandidateAt(m.r, m.s);
    PairFacts(w, m);
    DotBound(w, u, v);
    ProductsOf(w, u, v);
    MulMono(lx, 6.0, ly);
    DenominatorBelow(w, u, v);
  }

  lemma DenominatorBelow(w: Search, u: Candidate, v: Candidate)
    requires w.LengthProduct(u, v) <= 36.0 && w.tol == 0.00000001
    ensures w.tol * Denominator(w, u, v) < 1.0
  {
    hide Search.LengthProduct;
  }

  lemma IntegerDot(i: int, j: int, k: int, l: int, dot: real)
    requires dot == i as real * k as real + j as real * l as real && AbsR(dot) < 1.0
    ensures i * k + j * l == 0
  {
    assert dot == (i * k + j * l) as real;
  }

  lemma IntegerPairs(i: int, q: int, k: int, l: int)
    requires 16 < i * i + 9 * (q * q) < 36 && 16 < k * k + 9 * (l * l) < 36
    requires i * k + 9 * (q * l) == 0
    ensures i * i + 9 * (q * q) == 18 && k * k + 9 * (l * l) == 18
  {
    ShortVector(i, q);
    ShortVector(k, l);
  }

  lemma ShortVector(i: int, q: int)
    requires 16 < i * i + 9 * (q * q) < 36
    ensures (q == 0 && i in {5, -5}) || (q in {1, -1} && i in {3, 4, 5, -3, -4, -5})
  {
    SmallRoot(q, 1, q * q);
    SmallRoot(i, 5, i * i);
  }

  lemma SmallRoot(i: int, n: int, square: int)
    requires n >= 0 && square == i * i && square < (n + 1) * (n + 1)
    ensures -n <= i <= n
  {
    if i >= n + 1 {
      IntegerSquareMono(n + 1, i);
    } else if i <= -n - 1 {
      IntegerSquareMono(n + 1, -i);
    }
  }

  lemma IntegerSquareMono(x: int, y: int)
    requires 0 <= x <= y
    ensures x * x <= y * y
  {
    assert y * y - x * x == (y - x) * (y + x);
    assert (y - x) * (y + x) >= 0;
  }

  lemma ExampleSums(w: Search, m: Matrix)
    requires IsExample(w) && w.targetXy == 5.0
    requires w.norm(m.p, m.q) * w.norm(m.p, m.q) == 18.0 && w.norm(m.r, m.s) * w.norm(m.r, m.s) == 18.0
    ensures SquaredDeviations(w, Chosen) == 1.0 < SquaredDeviations(w, m)
  {
    ExampleLengths(w);
    hide Search.WellFormed;
    assert w.IsLength(m.p, m.q) && w.IsLength(m.r, m.s) by { LengthsOf(w, m); }
    RootBetween(w.norm(m.p, m.q), 4.0, 4.25);
    RootBetween(w.norm(m.r, m.s), 4.0, 4.25);
    FarEdge(w.norm(m.p, m.q));
    FarEdge(w.norm(m.r, m.s));
  }

  lemma LengthsOf(w: Search, m: Matrix)
    requires w.WellFormed()
    ensures w.IsLength(m.p, m.q) && w.IsLength(m.r, m.s)
  {
  }

  lemma FarEdge(l: real)
    requires l <= 4.25
    ensures (l - 5.0) * (l - 5.0) >= 0.5625
  {
    SquareMono(0.75, 5.0 - l);
    assert (l - 5.0) * (l - 5.0) == (5.0 - l) * (5.0 - l);
  }
}
