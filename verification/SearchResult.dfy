/** What the fields of a search result say, and which pairs of rows the search lets through. */
module SearchResult {
  import opened Common
  import opened Numeric
  import opened Sublattice
  import opened SupercellSearch
  import opened SlabLayers

  /** An angle counts as right when it is 90 up to one part in a thousand million; the absolute tolerance of the
      comparison is smaller than that and never matters. */
  lemma RightAngledIff(w: Search)
    ensures w.IsRightAngled() <==> AbsR(w.gammaDeg - 90.0) <= 0.000000001 * MaxR(AbsR(w.gammaDeg), 90.0)
    ensures w.gammaDeg == 90.00000009 ==> w.IsRightAngled()
    ensures w.gammaDeg == 90.0000001 ==> !w.IsRightAngled()
  {
  }

  lemma OrthogonalityIs(w: Search, u: Candidate, v: Candidate)
    ensures w.OrthogonalityError(u, v) * MaxR(u.len * v.len, 0.000000000001) == AbsR(u.x * v.x + u.y * v.y)
  {
    ProductsOf(w, u, v);
    hide Search.Dot, Search.LengthProduct;
    AbsQuotient(w.Dot(u, v), MaxR(w.LengthProduct(u, v), TINY));
  }

  lemma AbsQuotient(x: real, d: real)
    requires d > 0.0
    ensures AbsR(x / d) * d == AbsR(x)
  {
    assert (x / d) * d == x;
    assert x / d >= 0.0 ==> (x / d) * d >= 0.0;
    assert x / d <= 0.0 ==> (x / d) * d <= 0.0;
  }

  /** The filters on a pair: a positive number of cells within the bound, and a dot product within the tolerance times
      the product of the lengths. */
  lemma AcceptsIff(w: Search, u: Candidate, v: Candidate)
    ensures w.Accepts(u, v) <==>
      && 0 < u.p * v.q - u.q * v.p <= w.maxCells
      && AbsR(u.x * v.x + u.y * v.y) <= w.tol * MaxR(u.len * v.len, 0.000000000001)
  {
    OrthogonalityIs(w, u, v);
    hide Search.OrthogonalityError;
    var d := MaxR(u.len * v.len, 0.000000000001);
    ScaledAtMost(w.OrthogonalityError(u, v), w.tol, d, AbsR(u.x * v.x + u.y * v.y));
  }

  lemma ScaledAtMost(x: real, y: real, d: real, scaled: real)
    requires d > 0.0 && x * d == scaled
    ensures x <= y <==> scaled <= y * d
  {
    var gap := x - y;
    assert gap * d == scaled - y * d;
    SignKept(gap, d);
  }

  lemma SignKept(x: real, d: real)
    requires d > 0.0
    ensures x <= 0.0 <==> x * d <= 0.0
  {
  }

  // The edges of the cell, clamped from below.
  function EdgeX(w: Search): real {
    MaxR(w.a, 0.000000000001)
  }

  function EdgeY(w: Search): real {
    MaxR(AbsR(w.b * w.sinG), 0.000000000001)
  }

  /** The candidates: at most that many steps along either edge, not the zero vector, and a length within twice the
      longer edge of the target. */
  lemma CandidateIff(w: Search, p: int, q: int)
    requires w.MinStep() > 0.0
    ensures w.MinStep() == MinR(AbsR(w.a), AbsR(w.b * w.sinG))
    ensures var radius := Max(1, Ceil(w.targetXy / w.MinStep()) + 3);
      w.IsCandidate(p, q) <==>
        && Abs(p) <= radius && Abs(q) <= radius && (p != 0 || q != 0)
        && AbsR(w.norm(p, q) - w.targetXy) <= 2.0 * MaxR(AbsR(w.a), AbsR(w.b))
  {
    hide Numeric.Ceil;
  }

  /** Each edge of the diagonal supercell is the multiple of its cell edge nearest to the target, at least one. */
  lemma DiagonalIsNearest(w: Search, reason: Option<Fallback>, n: int)
    requires w.targetXy > 0.0 && n >= 1
    ensures var r, t := w.DiagonalResult(reason), w.targetXy;
      && r.matrix.p >= 1 && r.matrix.s >= 1
      && r.lx == r.matrix.p as real * EdgeX(w) && r.ly == r.matrix.s as real * EdgeY(w)
      && Miss(r.matrix.p, EdgeX(w), t) <= Miss(n, EdgeX(w), t) && Miss(r.matrix.s, EdgeY(w), t) <= Miss(n, EdgeY(w), t)
  {
    EdgesAre(w);
    hide *;
    DiagonalShape(w, reason);
    EdgesPositive(w);
    NearestEdge(w.targetXy, w.CellX(), n, w.DiagonalResult(reason).matrix.p);
    NearestEdge(w.targetXy, w.CellY(), n, w.DiagonalResult(reason).matrix.s);
  }

  lemma EdgesAre(w: Search)
    ensures w.CellX() == EdgeX(w) && w.CellY() == EdgeY(w)
  {
  }

  lemma NearestEdge(target: real, cell: real, n: int, k: int)
    requires target > 0.0 && cell > 0.0 && n >= 1 && k == Max(1, Round(target / cell))
    ensures Miss(k, cell, target) <= Miss(n, cell, target)
  {
    var ratio := target / cell;
    assert ratio * cell == target;
    assert ratio <= 0.0 ==> ratio * cell <= 0.0;
    hide Numeric.Round;
    RoundedIsNearest(ratio, n);
    MissMono(k, n, cell, target, ratio);
  }

  // The dot product of the rows of a matrix, and the product of their lengths.
  function RowsDot(w: Search, m: Matrix): real {
    w.X(m.p, m.q) * w.X(m.r, m.s) + w.Y(m.p, m.q) * w.Y(m.r, m.s)
  }

  function RowsProduct(w: Search, m: Matrix): real {
    w.norm(m.p, m.q) * w.norm(m.r, m.s)
  }

  /** The fields of what the search returns: the error is the worse deviation of an edge in percent of the target, the
      orthogonality error that of the rows, or the cosine of the cell angle for the diagonal supercell. */
  lemma FoundFields(w: Search)
    requires Optimal(w).Success?
    ensures var r, t := Optimal(w).value, w.targetXy;
      && r.errorXyPct * MaxR(t, 0.000000000001) == 100.0 * MaxR(AbsR(r.lx - t), AbsR(r.ly - t))
      && (r.isDiagonal <==> r.matrix.q == 0 && r.matrix.r == 0)
      && (r.fallback != None || w.IsRightAngled() ==>
            r.matrix.q == 0 && r.matrix.r == 0 && r.orthogonalityError == AbsR(w.cosG))
      && (r.fallback == None && !w.IsRightAngled() ==>
            var m := r.matrix;
            && r.lx == w.norm(m.p, m.q) && r.ly == w.norm(m.r, m.s)
            && r.orthogonalityError * MaxR(RowsProduct(w, m), 0.000000000001) == AbsR(RowsDot(w, m)))
  {
    hide *;
    var r := Optimal(w).value;
    OneOfBoth(w);
    if r.fallback != None || w.IsRightAngled() {
      DiagonalFieldsAre(w, r.fallback);
    } else {
      MatrixFieldsAre(w, r.matrix);
    }
    PercentIs(w, r.lx, r.ly);
  }

  lemma OneOfBoth(w: Search)
    requires Optimal(w).Success?
    ensures var r := Optimal(w).value;
      && (r.fallback != None || w.IsRightAngled() ==> r == w.DiagonalResult(r.fallback))
      && (r.fallback == None && !w.IsRightAngled() ==> r == w.MatrixResult(r.matrix))
  {
    hide Search.IsBest, Search.BeatsDiagonal, Search.IsAcceptable, Search.IsCandidate, Search.MinStep,
         Search.IsRightAngled, Search.OrthogonalityError, Search.ErrorXyPct, Search.Nz, Search.X, Search.Y,
         Search.CellX, Search.CellY, Numeric.Round;
  }

  lemma DiagonalFieldsAre(w: Search, reason: Option<Fallback>)
    ensures var r := w.DiagonalResult(reason);
      && r.errorXyPct == w.ErrorXyPct(r.lx, r.ly) && r.isDiagonal && r.matrix.q == 0 && r.matrix.r == 0
      && r.orthogonalityError == AbsR(w.cosG)
  {
    hide Search.ErrorXyPct, Search.Nz, Search.CellX, Search.CellY, Numeric.Round;
  }

  lemma MatrixFieldsAre(w: Search, m: Matrix)
    ensures var r := w.MatrixResult(m);
      && r.errorXyPct == w.ErrorXyPct(r.lx, r.ly) && (r.isDiagonal <==> m.q == 0 && m.r == 0) && r.matrix == m
      && r.lx == w.norm(m.p, m.q) && r.ly == w.norm(m.r, m.s)
      && r.orthogonalityError * MaxR(RowsProduct(w, m), 0.000000000001) == AbsR(RowsDot(w, m))
  {
    hide Search.ErrorXyPct, Search.Nz, Search.OrthogonalityError, Search.X, Search.Y;
    RowsAre(w, m);
    OrthogonalityIs(w, w.CandidateAt(m.p, m.q), w.CandidateAt(m.r, m.s));
  }

  lemma RowsAre(w: Search, m: Matrix)
    ensures var u, v := w.CandidateAt(m.p, m.q), w.CandidateAt(m.r, m.s);
      RowsDot(w, m) == u.x * v.x + u.y * v.y && RowsProduct(w, m) == u.len * v.len
  {
    hide Search.X, Search.Y;
  }

  lemma PercentIs(w: Search, lx: real, ly: real)
    ensures var t := w.targetXy;
      w.ErrorXyPct(lx, ly) * MaxR(t, 0.000000000001) == 100.0 * MaxR(AbsR(lx - t), AbsR(ly - t))
  {
    var x, d := MaxR(AbsR(lx - w.targetXy), AbsR(ly - w.targetXy)), MaxR(w.targetXy, TINY);
    assert (x / d) * d == x;
    assert (x / d * 100.0) * d == 100.0 * x;
  }
}
