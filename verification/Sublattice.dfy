/** Integer sublattices of the plane and the unit-cell origins of a supercell.

    A supercell is given by the rows (p, q) and (r, s) of an integer matrix: it is spanned by the
    lattice vectors p*a + q*b and r*a + s*b.  The scan in EnumerateUnitCells walks a bounding box and
    keeps the integer points of a half-open parallelogram.  The theorems say that these points are a
    complete, duplicate-free system of representatives of Z^2 modulo the sublattice spanned by the rows,
    and that there are exactly det of them, whatever the matrix.
 */
module Sublattice {
  import opened Common

  datatype Matrix = Matrix(p: int, q: int, r: int, s: int)

  type Cell = (int, int)

  function Det(m: Matrix): int {
    m.p * m.s - m.q * m.r
  }

  // Numerators of the fractional coordinates of a point in the supercell basis.
  function UNum(m: Matrix, i: int, j: int): int {
    m.s * i - m.r * j
  }

  function VNum(m: Matrix, i: int, j: int): int {
    -m.q * i + m.p * j
  }

  predicate InCell(m: Matrix, c: Cell) {
    && 0 <= UNum(m, c.0, c.1) < Det(m)
    && 0 <= VNum(m, c.0, c.1) < Det(m)
  }

  // The point reached from c by k copies of the first row and l copies of the second.
  function Shift(m: Matrix, c: Cell, k: int, l: int): Cell {
    (c.0 + k * m.p + l * m.r, c.1 + k * m.q + l * m.s)
  }

  ghost predicate Congruent(m: Matrix, c: Cell, d: Cell) {
    exists k: int, l: int :: d == Shift(m, c, k, l)
  }

  ghost predicate Represented(m: Matrix, reps: set<Cell>, c: Cell) {
    exists d :: d in reps && Congruent(m, c, d)
  }

  ghost predicate PairwiseIncongruent(m: Matrix, reps: set<Cell>) {
    forall d, e :: d in reps && e in reps && Congruent(m, d, e) ==> d == e
  }

  /** Every integer point is congruent to exactly one member of the set. */
  ghost predicate IsTransversal(m: Matrix, reps: set<Cell>) {
    && PairwiseIncongruent(m, reps)
    && forall c :: Represented(m, reps, c)
  }

  ghost predicate SameLattice(m: Matrix, n: Matrix) {
    forall c, d :: Congruent(m, c, d) <==> Congruent(n, c, d)
  }

  // ---------------------------------------------------------------- congruence

  lemma CongruentIntro(m: Matrix, c: Cell, k: int, l: int)
    ensures Congruent(m, c, Shift(m, c, k, l))
  {
  }

  lemma CongruentSymmetric(m: Matrix, c: Cell, d: Cell)
    requires Congruent(m, c, d)
    ensures Congruent(m, d, c)
  {
    var k, l :| d == Shift(m, c, k, l);
    assert Shift(m, d, -k, -l) == c;
  }

  lemma CongruentTransitive(m: Matrix, c: Cell, d: Cell, e: Cell)
    requires Congruent(m, c, d) && Congruent(m, d, e)
    ensures Congruent(m, c, e)
  {
    var k, l :| d == Shift(m, c, k, l);
    var k', l' :| e == Shift(m, d, k', l');
    Distribute(k, k', m.p);
    Distribute(l, l', m.r);
    Distribute(k, k', m.q);
    Distribute(l, l', m.s);
    assert Shift(m, c, k + k', l + l') == e;
  }

  lemma Distribute(x: int, y: int, z: int)
    ensures (x + y) * z == x * z + y * z
  {
  }

  // ---------------------------------------------------------------- the parallelogram

  // Moving by whole rows moves the numerators by whole determinants.
  lemma NumeratorsOfShift(m: Matrix, c: Cell, k: int, l: int)
    ensures UNum(m, Shift(m, c, k, l).0, Shift(m, c, k, l).1) == UNum(m, c.0, c.1) + k * Det(m)
    ensures VNum(m, Shift(m, c, k, l).0, Shift(m, c, k, l).1) == VNum(m, c.0, c.1) + l * Det(m)
  {
  }

  /** The half-open parallelogram is a fundamental domain. */
  lemma ParallelogramIsTransversal(m: Matrix, reps: set<Cell>)
    requires Det(m) > 0
    requires forall c :: c in reps <==> InCell(m, c)
    ensures IsTransversal(m, reps)
  {
    forall c ensures Represented(m, reps, c) {
      var d := CellOf(m, c);
    }
    forall d, e | d in reps && e in reps && Congruent(m, d, e)
      ensures d == e
    {
      InCellUnique(m, d, e);
    }
  }

  lemma CellOf(m: Matrix, c: Cell) returns (d: Cell)
    requires Det(m) > 0
    ensures InCell(m, d) && Congruent(m, c, d)
  {
    var k := -(UNum(m, c.0, c.1) / Det(m));
    var l := -(VNum(m, c.0, c.1) / Det(m));
    d := Shift(m, c, k, l);
    NumeratorsOfShift(m, c, k, l);
    FloorRemainder(UNum(m, c.0, c.1), Det(m));
    FloorRemainder(VNum(m, c.0, c.1), Det(m));
  }

  lemma InCellUnique(m: Matrix, d: Cell, e: Cell)
    requires InCell(m, d) && InCell(m, e) && Congruent(m, d, e)
    ensures d == e
  {
    var k, l :| e == Shift(m, d, k, l);
    NumeratorsOfShift(m, d, k, l);
    SmallMultipleIsZero(k, Det(m));
    SmallMultipleIsZero(l, Det(m));
  }

  lemma FloorRemainder(x: int, d: int)
    requires d > 0
    ensures 0 <= x + (-(x / d)) * d < d
  {
  }

  lemma SmallMultipleIsZero(k: int, d: int)
    requires d > 0
    ensures -d < k * d < d ==> k == 0
  {
    if k >= 1 {
      assert k * d >= d;
    } else if k <= -1 {
      assert k * d <= -d;
    }
  }

  // ---------------------------------------------------------------- the count

  lemma TransversalsInject(m: Matrix, a: set<Cell>, b: set<Cell>)
    requires IsTransversal(m, b)
    requires PairwiseIncongruent(m, a)
    ensures |a| <= |b|
  {
    var f := map c | c in a :: RepOf(m, b, c);
    forall c, d | c in a && d in a && f[c] == f[d]
      ensures c == d
    {
      CongruentSymmetric(m, d, f[d]);
      CongruentTransitive(m, c, f[c], d);
    }
    InjectionBoundsCard(a, b, f);
  }

  ghost function RepOf(m: Matrix, b: set<Cell>, c: Cell): (d: Cell)
    requires IsTransversal(m, b)
    ensures d in b && Congruent(m, c, d)
  {
    assert Represented(m, b, c);
    var d :| d in b && Congruent(m, c, d);
    d
  }

  /** Any two transversals of the same sublattice have the same size. */
  lemma TransversalsEquinumerous(m: Matrix, a: set<Cell>, b: set<Cell>)
    requires IsTransversal(m, a) && IsTransversal(m, b)
    ensures |a| == |b|
  {
    TransversalsInject(m, a, b);
    TransversalsInject(m, b, a);
  }

  // The rectangle of origins that represents a triangular matrix.
  ghost function Rectangle(w: nat, h: nat): set<Cell> {
    set i, j | 0 <= i < w && 0 <= j < h :: (i, j)
  }

  ghost function Column(i: int, h: nat): set<Cell> {
    set j | 0 <= j < h :: (i, j)
  }

  lemma {:induction false} ColumnSize(i: int, h: nat)
    ensures |Column(i, h)| == h
  {
    if h > 0 {
      ColumnSize(i, h - 1);
      assert Column(i, h) == Column(i, h - 1) + {(i, h - 1)};
    }
  }

  lemma {:induction false} RectangleSize(w: nat, h: nat)
    ensures |Rectangle(w, h)| == w * h
  {
    if w == 0 {
      assert Rectangle(w, h) == {};
    } else {
      RectangleSize(w - 1, h);
      ColumnSize(w - 1, h);
      assert Rectangle(w, h) == Rectangle(w - 1, h) + Column(w - 1, h);
      assert Rectangle(w - 1, h) !! Column(w - 1, h);
      Distribute(w - 1, 1, h);
    }
  }

  lemma TriangularTransversal(m: Matrix)
    requires m.r == 0 && m.p > 0 && m.s > 0
    ensures IsTransversal(m, Rectangle(m.p, m.s))
  {
    var reps := Rectangle(m.p, m.s);
    forall c ensures Represented(m, reps, c) {
      var k := -(c.0 / m.p);
      FloorRemainder(c.0, m.p);
      var y := c.1 + k * m.q;
      var l := -(y / m.s);
      FloorRemainder(y, m.s);
      CongruentIntro(m, c, k, l);
      assert Shift(m, c, k, l) in reps;
    }
    forall d, e | d in reps && e in reps && Congruent(m, d, e)
      ensures d == e
    {
      var k, l :| e == Shift(m, d, k, l);
      SmallMultipleIsZero(k, m.p);
      SmallMultipleIsZero(l, m.s);
    }
  }

  lemma TransversalTransfer(m: Matrix, n: Matrix, reps: set<Cell>)
    requires IsTransversal(m, reps) && SameLattice(m, n)
    ensures IsTransversal(n, reps)
  {
    forall c ensures Represented(n, reps, c) {
      assert Represented(m, reps, c);
    }
  }

  // One Euclidean step on the first column, as a unimodular row operation.
  function EuclidStep(m: Matrix): Matrix
    requires m.r != 0
  {
    var k := m.p / m.r;
    Matrix(m.r, m.s, -(m.p - k * m.r), -(m.q - k * m.s))
  }

  lemma EuclidStepKeepsLattice(m: Matrix)
    requires m.r != 0
    ensures SameLattice(EuclidStep(m), m)
  {
    var n := EuclidStep(m);
    var k := m.p / m.r;
    forall c, d
      ensures Congruent(m, c, d) <==> Congruent(n, c, d)
    {
      if Congruent(m, c, d) {
        var x, y :| d == Shift(m, c, x, y);
        RowOperation(m, k, c, y + k * x, -x);
        assert d == Shift(n, c, y + k * x, -x);
      }
      if Congruent(n, c, d) {
        var x, y :| d == Shift(n, c, x, y);
        RowOperation(m, k, c, x, y);
        assert d == Shift(m, c, -y, x + k * y);
      }
    }
  }

  // x copies of row two and y copies of (k * row two - row one), in terms of the old rows.
  lemma RowOperation(m: Matrix, k: int, c: Cell, x: int, y: int)
    ensures Shift(Matrix(m.r, m.s, -(m.p - k * m.r), -(m.q - k * m.s)), c, x, y) == Shift(m, c, -y, x + k * y)
  {
  }

  lemma EuclidStepMeasure(m: Matrix)
    requires m.r != 0
    ensures Det(EuclidStep(m)) == Det(m)
    ensures Abs(EuclidStep(m).r) < Abs(m.r)
  {
    var k := m.p / m.r;
    assert m.p - k * m.r == m.p % m.r;
    var x := m.r * m.q;
    assert m.r * (m.q - k * m.s) == x - m.r * (k * m.s);
    assert m.s * (m.p - k * m.r) == m.s * m.p - m.r * (k * m.s);
  }

  function Negated(m: Matrix): Matrix {
    Matrix(-m.p, -m.q, -m.r, -m.s)
  }

  lemma NegatedShift(m: Matrix, c: Cell, x: int, y: int)
    ensures Shift(Negated(m), c, x, y) == Shift(m, c, -x, -y)
  {
  }

  lemma NegatedKeepsLattice(m: Matrix)
    ensures SameLattice(Negated(m), m)
  {
    forall c, d
      ensures Congruent(Negated(m), c, d) <==> Congruent(m, c, d)
    {
      if Congruent(m, c, d) {
        var x, y :| d == Shift(m, c, x, y);
        NegatedShift(m, c, -x, -y);
        assert d == Shift(Negated(m), c, -x, -y);
      }
      if Congruent(Negated(m), c, d) {
        var x, y :| d == Shift(Negated(m), c, x, y);
        NegatedShift(m, c, x, y);
      }
    }
  }

  lemma TriangularOfSizeDet(m: Matrix) returns (reps: set<Cell>)
    requires m.r == 0 && m.p > 0 && Det(m) > 0
    ensures IsTransversal(m, reps) && |reps| == Det(m)
  {
    PositiveProduct(m.p, m.s);
    TriangularTransversal(m);
    RectangleSize(m.p, m.s);
    reps := Rectangle(m.p, m.s);
  }

  /** The index of the sublattice is its determinant: some transversal has det members. */
  lemma {:induction false} TransversalOfSizeDet(m: Matrix) returns (reps: set<Cell>)
    requires Det(m) > 0
    ensures IsTransversal(m, reps) && |reps| == Det(m)
    decreases Abs(m.r)
  {
    if m.r != 0 {
      EuclidStepMeasure(m);
      reps := TransversalOfSizeDet(EuclidStep(m));
      EuclidStepKeepsLattice(m);
      TransversalTransfer(EuclidStep(m), m, reps);
    } else if m.p > 0 {
      reps := TriangularOfSizeDet(m);
    } else {
      NegatedDet(m);
      reps := TriangularOfSizeDet(Negated(m));
      NegatedKeepsLattice(m);
      TransversalTransfer(Negated(m), m, reps);
    }
  }

  lemma NegatedDet(m: Matrix)
    ensures Det(Negated(m)) == Det(m)
    ensures m.r == 0 && m.p == 0 ==> Det(m) == 0
  {
  }

  lemma PositiveProduct(x: int, y: int)
    requires x >= 0 && x * y > 0
    ensures x > 0 && y > 0
  {
    assert y <= 0 ==> x * y <= 0;
  }

  /** Any set that holds exactly the integer points of the parallelogram has det members. */
  lemma ParallelogramCount(m: Matrix, reps: set<Cell>)
    requires Det(m) > 0
    requires forall c :: c in reps <==> InCell(m, c)
    ensures |reps| == Det(m)
  {
    ParallelogramIsTransversal(m, reps);
    var other := TransversalOfSizeDet(m);
    TransversalsEquinumerous(m, reps, other);
  }

  // ---------------------------------------------------------------- the scan

  // The bounding box of the four corners, widened by one on each side.
  function Lowest(x: int, y: int): int {
    Min(Min(0, x), Min(y, x + y)) - 1
  }

  function Highest(x: int, y: int): int {
    Max(Max(0, x), Max(y, x + y)) + 1
  }

  lemma WeightedBounds(u: int, v: int, det: int, x: int, y: int)
    requires 0 <= u < det && 0 <= v < det
    ensures det * (Lowest(x, y) + 1) <= u * x + v * y <= det * (Highest(x, y) - 1)
  {
    ScaledBounds(u, det, x);
    ScaledBounds(v, det, y);
    CornerSum(x, y);
    Distribute(Min(0, x), Min(0, y), det);
    Distribute(Max(0, x), Max(0, y), det);
  }

  // The extreme corners of the parallelogram are sums of the extremes of its edges.
  lemma CornerSum(x: int, y: int)
    ensures Lowest(x, y) + 1 == Min(0, x) + Min(0, y)
    ensures Highest(x, y) - 1 == Max(0, x) + Max(0, y)
  {
  }

  lemma ScaledBounds(u: int, det: int, x: int)
    requires 0 <= u < det
    ensures det * Min(0, x) <= u * x <= det * Max(0, x)
  {
    if x >= 0 {
      assert 0 <= u * x <= det * x;
    } else {
      assert det * x <= u * x <= 0;
    }
  }

  lemma InCellWithinBox(m: Matrix, c: Cell)
    requires InCell(m, c)
    ensures Lowest(m.p, m.r) < c.0 < Highest(m.p, m.r)
    ensures Lowest(m.q, m.s) < c.1 < Highest(m.q, m.s)
  {
    var u, v, det := UNum(m, c.0, c.1), VNum(m, c.0, c.1), Det(m);
    assert u * m.p + v * m.r == det * c.0;
    assert u * m.q + v * m.s == det * c.1;
    WeightedBounds(u, v, det, m.p, m.r);
    WeightedBounds(u, v, det, m.q, m.s);
    CancelBounds(det, Lowest(m.p, m.r) + 1, c.0, Highest(m.p, m.r) - 1);
    CancelBounds(det, Lowest(m.q, m.s) + 1, c.1, Highest(m.q, m.s) - 1);
  }

  lemma CancelBounds(d: int, lo: int, x: int, hi: int)
    requires d > 0 && d * lo <= d * x <= d * hi
    ensures lo <= x <= hi
  {
    assert x <= lo - 1 ==> d * x <= d * (lo - 1);
    assert hi <= x - 1 ==> d * hi <= d * (x - 1);
  }

  // The order in which the scan visits points.
  predicate ScannedBefore(c: Cell, d: Cell) {
    c.0 < d.0 || (c.0 == d.0 && c.1 < d.1)
  }

  datatype EnumerationError = NonPositiveDeterminant(det: int) | EnumerationMismatch(got: int, det: int)

  /** The unit-cell origins of a supercell, in scan order.  Fails only on a non-positive determinant. */
  method EnumerateUnitCells(m: Matrix) returns (res: Result<seq<Cell>, EnumerationError>)
    ensures Det(m) <= 0 ==> res == Failure(NonPositiveDeterminant(Det(m)))
    ensures Det(m) > 0 ==> res.Success? && |res.value| == Det(m)
    ensures res.Success? ==> forall c :: c in res.value <==> InCell(m, c)
    ensures res.Success? ==> forall x, y :: 0 <= x < y < |res.value| ==> ScannedBefore(res.value[x], res.value[y])
    ensures res.Success? ==> IsTransversal(m, SetOf(res.value))
  {
    var det := Det(m);
    if det <= 0 {
      return Failure(NonPositiveDeterminant(det));
    }
    var minI, maxI := Lowest(m.p, m.r), Highest(m.p, m.r);
    var minJ, maxJ := Lowest(m.q, m.s), Highest(m.q, m.s);
    var cells: seq<Cell> := [];
    var i := minI;
    while i <= maxI
      invariant minI <= i <= maxI + 1
      invariant forall c :: c in cells <==> InCell(m, c) && minI <= c.0 < i && minJ <= c.1 <= maxJ
      invariant forall x, y :: 0 <= x < y < |cells| ==> ScannedBefore(cells[x], cells[y])
    {
      var j := minJ;
      while j <= maxJ
        invariant minJ <= j <= maxJ + 1
        invariant forall c :: c in cells <==>
          InCell(m, c) && minJ <= c.1 <= maxJ && (minI <= c.0 < i || (c.0 == i && c.1 < j))
        invariant forall x, y :: 0 <= x < y < |cells| ==> ScannedBefore(cells[x], cells[y])
      {
        var uNum := m.s * i - m.r * j;
        var vNum := -m.q * i + m.p * j;
        if 0 <= uNum < det && 0 <= vNum < det {
          assert forall c :: c in cells ==> ScannedBefore(c, (i, j));
          cells := cells + [(i, j)];
        }
        j := j + 1;
      }
      i := i + 1;
    }
    forall c
      ensures c in cells <==> InCell(m, c)
    {
      if InCell(m, c) {
        InCellWithinBox(m, c);
      }
    }
    ParallelogramCount(m, SetOf(cells));
    ParallelogramIsTransversal(m, SetOf(cells));
    DistinctCard(cells);
    if |cells| != det {
      return Failure(EnumerationMismatch(|cells|, det));
    }
    return Success(cells);
  }
}
