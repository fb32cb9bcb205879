/** How good the supercell is that the search returns: against every acceptable matrix, and, where the search radius
    is complete, against every integer matrix. */
module SearchOptimality {
  import opened Common
  import opened Numeric
  import opened Sublattice
  import opened SupercellSearch
  import opened SearchRadius

  // How far the worse of two edges is from the target.
  function Deviation(w: Search, lx: real, ly: real): real {
    MaxR(AbsR(lx - w.targetXy), AbsR(ly - w.targetXy))
  }

  // The same for a matrix.
  function DeviationOf(w: Search, m: Matrix): real {
    Deviation(w, w.norm(m.p, m.q), w.norm(m.r, m.s))
  }

  function DiagonalDeviation(w: Search): real {
    var d := w.DiagonalResult(None);
    Deviation(w, d.lx, d.ly)
  }

  function Error(w: Search, m: Matrix): real {
    w.MatrixResult(m).errorXyPct
  }

  function DiagonalError(w: Search): real {
    w.DiagonalResult(None).errorXyPct
  }

  // The denominator of the edge error.
  function Scale(w: Search): real {
    MaxR(w.targetXy, TINY)
  }

  // The filters on the rows of a matrix, without the radius and the margin.
  predicate Accepted(w: Search, m: Matrix) {
    w.Accepts(w.CandidateAt(m.p, m.q), w.CandidateAt(m.r, m.s))
  }

  // ---------------------------------------------------------------- errors and distances as deviations

  lemma ErrorIs(w: Search, lx: real, ly: real)
    ensures w.ErrorXyPct(lx, ly) * Scale(w) == 100.0 * Deviation(w, lx, ly)
    ensures Scale(w) > 0.0
  {
    hide Numeric.AbsR;
    Percentage(Deviation(w, lx, ly), Scale(w));
  }

  lemma Percentage(x: real, d: real)
    requires d > 0.0
    ensures (x / d * 100.0) * d == 100.0 * x
  {
    assert (x / d) * d == x;
  }

  lemma MatrixErrorIs(w: Search, m: Matrix)
    ensures Error(w, m) * Scale(w) == 100.0 * DeviationOf(w, m)
  {
    hide Search.ErrorXyPct, Search.Nz, Search.OrthogonalityError, Search.X, Search.Y, Deviation, Scale;
    ErrorIs(w, w.norm(m.p, m.q), w.norm(m.r, m.s));
  }

  lemma DiagonalErrorIs(w: Search)
    ensures DiagonalError(w) * Scale(w) == 100.0 * DiagonalDeviation(w)
  {
    hide Search.ErrorXyPct, Search.Nz, Search.CellX, Search.CellY, Deviation, Scale, Numeric.Round;
    var d := w.DiagonalResult(None);
    ErrorIs(w, d.lx, d.ly);
  }

  lemma ScalePositive(w: Search)
    ensures Scale(w) > 0.0
  {
  }

  lemma BeatsIs(w: Search, m: Matrix)
    ensures w.BeatsDiagonal(m) <==> Error(w, m) + 0.000001 < DiagonalError(w)
  {
    hide Search.MatrixResult, Search.DiagonalResult;
  }

  // A matrix that beats the diagonal supercell deviates less.
  lemma BeaterDeviatesLess(w: Search, m: Matrix)
    requires w.BeatsDiagonal(m)
    ensures DeviationOf(w, m) < DiagonalDeviation(w)
  {
    hide *;
    BeatsIs(w, m);
    MatrixErrorIs(w, m);
    DiagonalErrorIs(w);
    ScalePositive(w);
    ScaledLess(Error(w, m), DiagonalError(w), Scale(w));
  }

  lemma ScaledLess(x: real, y: real, c: real)
    requires x < y && c > 0.0
    ensures x * c < y * c
  {
    assert (y - x) * c > 0.0;
  }

  // The sum of the squared deviations, which the rank compares first.
  function SquaredDeviations(w: Search, m: Matrix): real {
    var dx, dy := w.norm(m.p, m.q) - w.targetXy, w.norm(m.r, m.s) - w.targetXy;
    dx * dx + dy * dy
  }

  lemma DistanceIs(w: Search, m: Matrix)
    requires w.targetXy > 0.0
    ensures w.MatrixRank(m).distance * (w.targetXy * w.targetXy) == SquaredDeviations(w, m)
  {
    hide Search.X, Search.Y;
    var t := w.targetXy;
    var dx, dy := w.norm(m.p, m.q) - t, w.norm(m.r, m.s) - t;
    SumOfSquares(dx, dy, dx / t, dy / t, t);
  }

  lemma SumOfSquares(dx: real, dy: real, ex: real, ey: real, t: real)
    requires t > 0.0 && ex == dx / t && ey == dy / t
    ensures (ex * ex + ey * ey) * (t * t) == dx * dx + dy * dy
  {
    assert ex * t == dx && ey * t == dy;
    SquareOfProduct(ex, t);
    SquareOfProduct(ey, t);
    var x, y, z := ex * ex, ey * ey, t * t;
    assert (x + y) * z == x * z + y * z;
  }

  lemma DeviationBrackets(w: Search, m: Matrix)
    ensures var d := DeviationOf(w, m); d >= 0.0 && d * d <= SquaredDeviations(w, m) <= 2.0 * (d * d)
  {
    var dx, dy := w.norm(m.p, m.q) - w.targetXy, w.norm(m.r, m.s) - w.targetXy;
    LargerSquare(dx, dy, DeviationOf(w, m));
  }

  lemma LargerSquare(x: real, y: real, d: real)
    requires d == MaxR(AbsR(x), AbsR(y))
    ensures d >= 0.0 && d * d <= x * x + y * y <= 2.0 * (d * d)
  {
    AbsSquare(x);
    AbsSquare(y);
    SquareMono(AbsR(x), d);
    SquareMono(AbsR(y), d);
  }

  lemma CloserMeansLess(w: Search, m: Matrix, n: Matrix)
    requires w.targetXy > 0.0
    ensures w.MatrixRank(m).distance <= w.MatrixRank(n).distance
      <==> SquaredDeviations(w, m) <= SquaredDeviations(w, n)
  {
    hide *;
    DistanceIs(w, m);
    DistanceIs(w, n);
    SameOrder(w.MatrixRank(m).distance, w.MatrixRank(n).distance, w.targetXy, w.targetXy * w.targetXy);
  }

  lemma SameOrder(x: real, y: real, t: real, c: real)
    requires t > 0.0 && c == t * t
    ensures x <= y <==> x * c <= y * c
  {
    StrictSquare(0.0, t);
    if x <= y {
      MulMono(x, y, c);
    } else {
      ScaledLess(y, x, c);
    }
  }

  // ---------------------------------------------------------------- the best acceptable matrix

  /** Choosing by rank costs at most a factor sqrt(2) in the reported error: the best matrix has at most twice the
      squared error of any acceptable one. */
  lemma BestErrorWithinRootTwo(w: Search, m: Matrix, n: Matrix)
    requires w.MinStep() > 0.0 && w.targetXy > 0.0
    requires w.IsBest(m) && w.IsAcceptable(n)
    ensures Error(w, m) * Error(w, m) <= 2.0 * (Error(w, n) * Error(w, n))
  {
    hide *;
    BestDistance(w, m, n);
    CloserMeansLess(w, m, n);
    DeviationBrackets(w, m);
    DeviationBrackets(w, n);
    MatrixErrorIs(w, m);
    MatrixErrorIs(w, n);
    ScalePositive(w);
    Rescaled(Error(w, m), Error(w, n), Scale(w), DeviationOf(w, m), DeviationOf(w, n));
  }

  lemma BestDistance(w: Search, m: Matrix, n: Matrix)
    requires w.MinStep() > 0.0 && w.targetXy > 0.0
    requires w.IsBest(m) && w.IsAcceptable(n)
    ensures w.MatrixRank(m).distance <= w.MatrixRank(n).distance
  {
    hide Search.RankOf, Search.IsAcceptable;
  }

  lemma Rescaled(em: real, en: real, c: real, dm: real, dn: real)
    requires c > 0.0 && em * c == 100.0 * dm && en * c == 100.0 * dn && dm * dm <= 2.0 * (dn * dn)
    ensures em * em <= 2.0 * (en * en)
  {
    SquareOfProduct(em, c);
    SquareOfProduct(en, c);
    var x, y, z := em * em, en * en, c * c;
    assert x * z == 10000.0 * (dm * dm);
    assert y * z == 10000.0 * (dn * dn);
    SameOrder(x, 2.0 * y, c, z);
  }

  // How far the edges are from a square, and the sum of the coefficients.
  function EdgeGap(w: Search, m: Matrix): real {
    AbsR(w.norm(m.p, m.q) - w.norm(m.r, m.s))
  }

  function Coefficients(m: Matrix): int {
    Abs(m.p) + Abs(m.q) + Abs(m.r) + Abs(m.s)
  }

  /** What the best matrix is least in: the squared deviations; among equal ones the number of cells; then the
      difference of the edges; then the sum of the coefficients. */
  lemma BestIsLeast(w: Search, m: Matrix, n: Matrix)
    requires w.MinStep() > 0.0 && w.targetXy > 0.0
    requires w.IsBest(m) && w.IsAcceptable(n)
    ensures var dm, dn := SquaredDeviations(w, m), SquaredDeviations(w, n);
      && dm <= dn
      && (dm == dn ==> Det(m) <= Det(n))
      && (dm == dn && Det(m) == Det(n) ==> EdgeGap(w, m) <= EdgeGap(w, n))
      && (dm == dn && Det(m) == Det(n) && EdgeGap(w, m) == EdgeGap(w, n) ==> Coefficients(m) <= Coefficients(n))
  {
    hide *;
    CloserMeansLess(w, m, n);
    CloserMeansLess(w, n, m);
    RankIs(w, m);
    RankIs(w, n);
    BestRank(w, m, n);
  }

  lemma RankIs(w: Search, m: Matrix)
    requires w.targetXy > 0.0
    ensures var r := w.MatrixRank(m); r.det == Det(m) && r.skew == EdgeGap(w, m) && r.size == Coefficients(m)
  {
    hide Search.X, Search.Y, Numeric.AbsR, Common.Abs;
  }

  lemma BestRank(w: Search, m: Matrix, n: Matrix)
    requires w.MinStep() > 0.0 && w.targetXy > 0.0
    requires w.IsBest(m) && w.IsAcceptable(n)
    ensures var a, b := w.MatrixRank(m), w.MatrixRank(n);
      && a.distance <= b.distance
      && (a.distance == b.distance ==> a.det <= b.det)
      && (a.distance == b.distance && a.det == b.det ==> a.skew <= b.skew)
      && (a.distance == b.distance && a.det == b.det && a.skew == b.skew ==> a.size <= b.size)
  {
    hide Search.MatrixRank, Search.IsAcceptable;
    assert m == n || w.Precedes(m, n);
  }

  /** As soon as some matrix is acceptable, one is best. */
  lemma BestExists(w: Search, n: Matrix) returns (m: Matrix)
    requires w.MinStep() > 0.0 && w.targetXy > 0.0 && w.IsAcceptable(n)
    ensures w.IsBest(m)
  {
    hide Search.IsAcceptable, Search.MatrixRank, Search.Precedes;
    var s := AcceptableMatrices(w);
    m := LeastOf(w, s);
  }

  ghost function AcceptableMatrices(w: Search): (s: set<Matrix>)
    requires w.MinStep() > 0.0
    ensures forall m :: m in s <==> w.IsAcceptable(m)
  {
    hide Search.Radius, Search.MinStep, Search.Margin, Search.Accepts, Search.CandidateAt;
    var k := w.Radius();
    set p, q, r, s | -k <= p <= k && -k <= q <= k && -k <= r <= k && -k <= s <= k && w.IsAcceptable(Matrix(p, q, r, s))
      :: Matrix(p, q, r, s)
  }

  lemma {:induction false} LeastOf(w: Search, s: set<Matrix>) returns (m: Matrix)
    requires w.targetXy > 0.0 && s != {}
    ensures m in s && forall n :: n in s && n != m ==> w.Precedes(m, n)
    decreases |s|
  {
    hide Search.MatrixRank, Search.Precedes;
    m := SomeMember(s);
    var rest := s - {m};
    assert forall n :: n in s <==> n == m || n in rest;
    if rest != {} {
      var least := LeastOf(w, rest);
      PrecedesTotal(w, m, least);
      if w.Precedes(least, m) {
        m := least;
      } else {
        forall n | n in rest && n != least
          ensures w.Precedes(m, n)
        {
          PrecedesTransitive(w, m, least, n);
        }
      }
    }
  }

  lemma PrecedesTotal(w: Search, m: Matrix, n: Matrix)
    requires w.targetXy > 0.0 && m != n
    ensures w.Precedes(m, n) || w.Precedes(n, m)
  {
    hide Search.MatrixRank;
  }

  lemma PrecedesTransitive(w: Search, m: Matrix, n: Matrix, k: Matrix)
    requires w.targetXy > 0.0 && w.Precedes(m, n) && w.Precedes(n, k)
    ensures w.Precedes(m, k)
  {
    hide Search.MatrixRank;
    ScannedTransitive(m, n, k);
    hide ScannedFirst;
  }

  lemma ScannedTransitive(m: Matrix, n: Matrix, k: Matrix)
    ensures ScannedFirst(m, n) && ScannedFirst(n, k) ==> ScannedFirst(m, k)
  {
  }

  // ---------------------------------------------------------------- what the search returns

  predicate Searches(w: Search) {
    w.targetXy > 0.0 && w.targetZ > 0.0 && !w.IsRightAngled() && w.MinStep() > TINY
  }

  lemma SearchesFacts(w: Search)
    requires Searches(w)
    ensures w.targetXy > 0.0 && w.MinStep() > TINY && w.MinStep() > 0.0
  {
  }

  // The best matrix, if it beats the diagonal supercell, and otherwise the diagonal one.
  lemma SearchReturns(w: Search)
    requires Searches(w)
    ensures Optimal(w).Success? && w.MinStep() > 0.0
    ensures var r := Optimal(w).value;
      && (r.fallback == None ==>
            w.IsBest(r.matrix) && w.BeatsDiagonal(r.matrix) && r.errorXyPct == Error(w, r.matrix))
      && (r.fallback != None ==>
            r.errorXyPct == DiagonalError(w) && forall m :: w.IsBest(m) ==> !w.BeatsDiagonal(m))
      && (r.fallback in {None, Some(NoBetterOrthogonalCandidate)} <==> exists m :: w.IsAcceptable(m))
  {
    hide Search.IsBest, Search.BeatsDiagonal, Search.IsAcceptable, Search.IsCandidate, Search.MinStep,
         Search.MatrixResult, Search.DiagonalResult, Search.IsRightAngled;
    SearchesFacts(w);
    forall m ensures w.MatrixResult(m).fallback == None && w.MatrixResult(m).matrix == m {
      PairFields(w, m);
    }
    DiagonalFields(w, Some(NoCandidateVectors));
    DiagonalFields(w, Some(NoOrthogonalCandidate));
    DiagonalFields(w, Some(NoBetterOrthogonalCandidate));
    forall m | w.IsBest(m) ensures w.IsAcceptable(m) {
      BestIsAcceptable(w, m);
    }
    if forall p, q :: !w.IsCandidate(p, q) {
      forall m ensures !w.IsAcceptable(m) {
        RowsAreCandidates(w, m);
      }
    }
  }

  lemma PairFields(w: Search, m: Matrix)
    ensures w.MatrixResult(m).fallback == None && w.MatrixResult(m).matrix == m
  {
    hide Search.ErrorXyPct, Search.Nz, Search.OrthogonalityError, Search.X, Search.Y;
  }

  lemma DiagonalFields(w: Search, reason: Option<Fallback>)
    ensures w.DiagonalResult(reason).fallback == reason && w.DiagonalResult(reason).errorXyPct == DiagonalError(w)
  {
    SameButReason(w, reason);
  }

  lemma SameButReason(w: Search, reason: Option<Fallback>)
    ensures w.DiagonalResult(reason) == w.DiagonalResult(None).(fallback := reason)
  {
  }

  lemma RowsAreCandidates(w: Search, m: Matrix)
    requires w.MinStep() > 0.0
    ensures w.IsAcceptable(m) <==> w.IsCandidate(m.p, m.q) && w.IsCandidate(m.r, m.s) && Accepted(w, m)
  {
    hide Search.IsCandidate, Search.Accepts, Search.CandidateAt;
  }

  /** The reported error is within a factor sqrt(2) of that of every acceptable matrix, up to the slack of the
      comparison with the diagonal supercell. So when the search reports that there is no better orthogonal candidate, a
      better one improves the error at most by that factor. */
  lemma ReturnedWithinRootTwo(w: Search, n: Matrix)
    requires Searches(w) && w.MinStep() > 0.0 && w.IsAcceptable(n)
    ensures Optimal(w).Success? && Optimal(w).value.fallback in {None, Some(NoBetterOrthogonalCandidate)}
    ensures var e, en := Optimal(w).value.errorXyPct, Error(w, n);
      && (Optimal(w).value.fallback == None ==> e * e <= 2.0 * (en * en))
      && (e <= 0.000001 || (e - 0.000001) * (e - 0.000001) <= 2.0 * (en * en))
  {
    hide *;
    SearchesFacts(w);
    SearchReturns(w);
    var r := Optimal(w).value;
    var m := BestExists(w, n);
    if r.fallback == None {
      BestErrorWithinRootTwo(w, r.matrix, n);
    } else {
      BestErrorWithinRootTwo(w, m, n);
      BeatsIs(w, m);
    }
    var em := if r.fallback == None then Error(w, r.matrix) else Error(w, m);
    WithSlack(r.errorXyPct, em, 2.0 * (Error(w, n) * Error(w, n)));
  }

  lemma WithSlack(e: real, em: real, bound: real)
    requires e - 0.000001 <= em && em * em <= bound
    ensures e <= 0.000001 || (e - 0.000001) * (e - 0.000001) <= bound
  {
    if e > 0.000001 {
      SquareMono(e - 0.000001, em);
    }
  }

  /** When the squared deviations of the best matrix add up to at least twice the square of the diagonal one, the reason
      that there is no better orthogonal candidate is true. */
  lemma ReasonHolds(w: Search, m: Matrix, n: Matrix)
    requires w.MinStep() > 0.0 && w.targetXy > 0.0 && w.IsBest(m) && w.IsAcceptable(n)
    requires SquaredDeviations(w, m) >= 2.0 * (DiagonalDeviation(w) * DiagonalDeviation(w))
    ensures !w.BeatsDiagonal(n)
  {
    hide *;
    if w.BeatsDiagonal(n) {
      BeaterDeviatesLess(w, n);
      DeviationBrackets(w, n);
      StrictSquare(DeviationOf(w, n), DiagonalDeviation(w));
      BestDistance(w, m, n);
      CloserMeansLess(w, m, n);
    }
  }

  // ---------------------------------------------------------------- against every integer matrix

  // The diagonal supercell misses the target by at most half the margin.
  lemma DiagonalWithinHalfMargin(w: Search)
    requires w.WellFormed() && Searches(w)
    ensures 2.0 * DiagonalDeviation(w) <= w.Margin()
  {
    hide *;
    SearchesFacts(w);
    DiagonalNear(w);
    UnitSumOf(w);
    GapsOf(w);
    AbsNonnegative(w.b);
    SineBelowOne(w.cosG, w.sinG, AbsR(w.b));
    CellWithin(w);
    HalfMargin(w);
  }

  lemma CellWithin(w: Search)
    requires w.MinStep() > TINY && ColumnGap(w) <= AbsR(w.b)
    ensures w.CellX() <= AbsR(w.a) && w.CellY() <= AbsR(w.b)
  {
  }

  lemma HalfMargin(w: Search)
    requires var r := w.DiagonalResult(None);
      AbsR(r.lx - w.targetXy) <= AbsR(w.a) && AbsR(r.ly - w.targetXy) <= AbsR(w.b)
    ensures 2.0 * DiagonalDeviation(w) <= w.Margin()
  {
    hide Search.DiagonalResult, Numeric.AbsR;
  }

  /** A matrix that beats the diagonal supercell has both edges within half the margin. */
  lemma BeaterWithinMargin(w: Search, n: Matrix)
    requires w.WellFormed() && Searches(w) && w.BeatsDiagonal(n)
    ensures AbsR(w.norm(n.p, n.q) - w.targetXy) < w.Margin() / 2.0
    ensures AbsR(w.norm(n.r, n.s) - w.targetXy) < w.Margin() / 2.0
  {
    hide *;
    BeaterDeviatesLess(w, n);
    DiagonalWithinHalfMargin(w);
    EdgesDeviate(w, n);
  }

  lemma EdgesDeviate(w: Search, n: Matrix)
    ensures var d := DeviationOf(w, n);
      && AbsR(w.norm(n.p, n.q) - w.targetXy) <= d && AbsR(w.norm(n.r, n.s) - w.targetXy) <= d
      && (d == AbsR(w.norm(n.p, n.q) - w.targetXy) || d == AbsR(w.norm(n.r, n.s) - w.targetXy))
  {
    hide Numeric.AbsR;
  }

  /** An accepted matrix that beats the diagonal supercell is missed by the scan exactly when one of its rows lies
      beyond the radius. */
  lemma BeaterMissedIff(w: Search, n: Matrix)
    requires w.WellFormed() && Searches(w) && w.MinStep() > 0.0 && Accepted(w, n) && w.BeatsDiagonal(n)
    ensures !w.IsAcceptable(n) <==> Outside(w, n.p, n.q) || Outside(w, n.r, n.s)
  {
    hide *;
    BeaterWithinMargin(w, n);
    RowsNonzero(w, n);
    RowsAreCandidates(w, n);
    InsideIsCandidate(w, n.p, n.q);
    InsideIsCandidate(w, n.r, n.s);
  }

  lemma RowsNonzero(w: Search, n: Matrix)
    requires Accepted(w, n)
    ensures !(n.p == 0 && n.q == 0) && !(n.r == 0 && n.s == 0)
  {
    hide Search.OrthogonalityError, Search.X, Search.Y;
  }

  lemma InsideIsCandidate(w: Search, p: int, q: int)
    requires w.MinStep() > 0.0 && !(p == 0 && q == 0)
    ensures AbsR(w.norm(p, q) - w.targetXy) <= w.Margin() ==> (w.IsCandidate(p, q) <==> !Outside(w, p, q))
    ensures AbsR(w.norm(p, q) - w.targetXy) < w.Margin() / 2.0 ==> AbsR(w.norm(p, q) - w.targetXy) <= w.Margin()
  {
    hide Search.Radius, Search.Margin, Search.MinStep;
  }

  /** Where the search radius is complete, the result is optimal among all accepted integer matrices: without a fallback
      it precedes every other one, and with one of the first two reasons none beats the diagonal supercell. In any case
      no accepted matrix improves the error by more than the factor sqrt(2) and the slack. */
  lemma SearchOptimal(w: Search, n: Matrix)
    requires w.WellFormed() && Searches(w) && w.MinStep() > 0.0 && Complete(w) && Accepted(w, n)
    ensures Optimal(w).Success?
    ensures var r, en := Optimal(w).value, Error(w, n);
      && (r.fallback == None && n != r.matrix ==> w.Precedes(r.matrix, n))
      && (r.fallback in {Some(NoCandidateVectors), Some(NoOrthogonalCandidate)} ==> !w.BeatsDiagonal(n))
      && (r.errorXyPct <= 0.000001
          || (r.errorXyPct - 0.000001) * (r.errorXyPct - 0.000001) <= 2.0 * (en * en))
  {
    hide *;
    SearchesFacts(w);
    SearchReturns(w);
    if w.IsAcceptable(n) {
      ReturnedWithinRootTwo(w, n);
      BestPrecedes(w, n);
    } else {
      MissedIsFar(w, n);
      NotBeating(w, n);
      FarIsLater(w, n);
    }
  }

  lemma BestPrecedes(w: Search, n: Matrix)
    requires w.MinStep() > 0.0 && w.targetXy > 0.0 && w.IsAcceptable(n)
    ensures forall m :: w.IsBest(m) && n != m ==> w.Precedes(m, n)
  {
    hide Search.IsAcceptable, Search.Precedes;
  }

  // With a complete radius, a matrix that is not acceptable has an edge outside the margin.
  lemma MissedIsFar(w: Search, n: Matrix)
    requires w.WellFormed() && w.MinStep() > 0.0 && Complete(w) && Accepted(w, n) && !w.IsAcceptable(n)
    ensures DeviationOf(w, n) > w.Margin()
  {
    hide *;
    RowsNonzero(w, n);
    RowsAreCandidates(w, n);
    CompleteAt(w, n.p, n.q);
    CompleteAt(w, n.r, n.s);
    EdgesDeviate(w, n);
  }

  lemma CompleteAt(w: Search, p: int, q: int)
    requires w.MinStep() > 0.0 && Complete(w) && !(p == 0 && q == 0)
    ensures AbsR(w.norm(p, q) - w.targetXy) <= w.Margin() ==> w.IsCandidate(p, q)
  {
    hide Search.IsCandidate, Search.Margin, Search.MinStep;
  }

  lemma NotBeating(w: Search, n: Matrix)
    requires w.WellFormed() && Searches(w) && DeviationOf(w, n) > w.Margin()
    requires Optimal(w).Success?
    ensures !w.BeatsDiagonal(n)
    ensures var e, en := Optimal(w).value.errorXyPct, Error(w, n);
      e <= 0.000001 || (e - 0.000001) * (e - 0.000001) <= 2.0 * (en * en)
  {
    hide *;
    DiagonalWithinHalfMargin(w);
    MarginCovers(w);
    AbsNonnegative(w.a);
    if w.BeatsDiagonal(n) {
      BeaterDeviatesLess(w, n);
    }
    BeatsIs(w, n);
    SearchReturns(w);
    var r := Optimal(w).value;
    if r.fallback == None {
      BeatsIs(w, r.matrix);
    }
    assert Error(w, n) * Error(w, n) >= 0.0;
    WithSlack(r.errorXyPct, Error(w, n), 2.0 * (Error(w, n) * Error(w, n)));
  }

  // Its rank lies behind that of every matrix that beats the diagonal supercell.
  lemma FarIsLater(w: Search, n: Matrix)
    requires w.WellFormed() && Searches(w) && DeviationOf(w, n) > w.Margin()
    ensures w.targetXy > 0.0 && forall m :: w.BeatsDiagonal(m) ==> w.Precedes(m, n)
  {
    hide *;
    SearchesFacts(w);
    forall m | w.BeatsDiagonal(m)
      ensures w.Precedes(m, n)
    {
      BeaterDeviatesLess(w, m);
      DiagonalWithinHalfMargin(w);
      DeviationBrackets(w, m);
      DeviationBrackets(w, n);
      FarSum(DeviationOf(w, m), w.Margin(), DeviationOf(w, n), SquaredDeviations(w, m), SquaredDeviations(w, n));
      CloserMeansLess(w, n, m);
      ClosestFirst(w, m, n);
    }
  }

  lemma FarSum(near: real, margin: real, far: real, nearSum: real, farSum: real)
    requires 0.0 <= near && 2.0 * near < margin < far
    requires nearSum <= 2.0 * (near * near) && far * far <= farSum
    ensures nearSum < farSum
  {
    SquareMono(2.0 * near, margin);
    assert (2.0 * near) * (2.0 * near) == 4.0 * (near * near);
    StrictSquare(margin, far);
  }

  lemma ClosestFirst(w: Search, m: Matrix, n: Matrix)
    requires w.targetXy > 0.0 && w.MatrixRank(m).distance < w.MatrixRank(n).distance
    ensures w.Precedes(m, n)
  {
    hide Search.MatrixRank;
  }
}
