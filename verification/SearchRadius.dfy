/** When the search radius covers every lattice vector that the length margin admits, and when it does not. */
module SearchRadius {
  import opened Common
  import opened Numeric
  import opened SupercellSearch

  /** The square of the scan holds every lattice vector within the length margin. */
  ghost predicate Complete(w: Search)
    requires w.MinStep() > 0.0
  {
    forall p, q :: !(p == 0 && q == 0) && AbsR(w.norm(p, q) - w.targetXy) <= w.Margin() ==> w.IsCandidate(p, q)
  }

  predicate Outside(w: Search, p: int, q: int)
    requires w.MinStep() > 0.0
  {
    Abs(p) > w.Radius() || Abs(q) > w.Radius()
  }

  ghost predicate NoneShort(w: Search, reach: real)
    requires w.MinStep() > 0.0
  {
    forall p, q :: Outside(w, p, q) ==> w.norm(p, q) > reach
  }

  // The multiple of the unit that brings the base closest to 0.
  function NearestTo(base: real, unit: real): int
    requires unit != 0.0
  {
    Round(-base / unit)
  }

  // The second coordinate of the shortest vector with first coordinate p, and the other way round.
  function ShortestInRow(w: Search, p: int): int
    requires w.b != 0.0
  {
    NearestTo(AlongSecond(w, p), w.b)
  }

  // How far q steps along the second lattice vector lead along the first, and the other way round.
  function AlongFirst(w: Search, q: int): real {
    q as real * (w.b * w.cosG)
  }

  function AlongSecond(w: Search, p: int): real {
    p as real * (w.a * w.cosG)
  }

  function ShortestInColumn(w: Search, q: int): int
    requires w.a != 0.0
  {
    NearestTo(AlongFirst(w, q), w.a)
  }

  // The distance between neighbouring rows, and between neighbouring columns.
  function RowGap(w: Search): real {
    AbsR(w.a * w.sinG)
  }

  function ColumnGap(w: Search): real {
    AbsR(w.b * w.sinG)
  }

  // Line number k comes that close to the origin.
  predicate InReach(k: int, gap: real, reach: real) {
    k as real * gap <= reach
  }

  /** One vector for each of finitely many rows and columns beyond the radius is longer than the reach. */
  ghost predicate LinesClear(w: Search, reach: real)
    requires w.MinStep() > 0.0 && w.a != 0.0 && w.b != 0.0
  {
    && (forall p :: w.Radius() < p && InReach(p, RowGap(w), reach) ==> w.norm(p, ShortestInRow(w, p)) > reach)
    && (forall q :: w.Radius() < q && InReach(q, ColumnGap(w), reach) ==> w.norm(ShortestInColumn(w, q), q) > reach)
  }

  lemma EdgesNonzero(w: Search)
    requires w.MinStep() > 0.0
    ensures w.a != 0.0 && w.b != 0.0 && RowGap(w) > 0.0 && ColumnGap(w) > 0.0
  {
    assert w.b == 0.0 || w.sinG == 0.0 ==> w.b * w.sinG == 0.0;
    ProductNonzero(w.a, w.sinG);
  }

  lemma ProductNonzero(x: real, y: real)
    requires x != 0.0 && y != 0.0
    ensures x * y != 0.0
  {
  }

  lemma RadiusPositive(w: Search)
    requires w.MinStep() > 0.0
    ensures w.Radius() >= 1
  {
  }

  /** The radius is complete if and only if, on every row and column beyond it that comes within target plus margin of
      the origin, the shortest vector is longer than that. */
  lemma RadiusCompleteIff(w: Search)
    requires w.WellFormed() && w.MinStep() > 0.0
    ensures w.a != 0.0 && w.b != 0.0 && (Complete(w) <==> LinesClear(w, w.targetXy + w.Margin()))
  {
    hide *;
    EdgesNonzero(w);
    LinesClearIff(w, w.targetXy + w.Margin());
    if NoneShort(w, w.targetXy + w.Margin()) {
      NoneShortCompletes(w);
    }
    if Complete(w) {
      CompleteLeavesNoneShort(w);
    }
  }

  lemma NoneShortCompletes(w: Search)
    requires w.MinStep() > 0.0 && NoneShort(w, w.targetXy + w.Margin())
    ensures Complete(w)
  {
    hide Search.Radius, Search.Margin, Search.MinStep;
    forall p, q | !(p == 0 && q == 0) && AbsR(w.norm(p, q) - w.targetXy) <= w.Margin()
      ensures w.IsCandidate(p, q)
    {
      assert !Outside(w, p, q);
    }
  }

  // ---------------------------------------------------------------- a short vector outside meets the margin

  lemma CompleteLeavesNoneShort(w: Search)
    requires w.WellFormed() && w.MinStep() > 0.0 && Complete(w)
    ensures NoneShort(w, w.targetXy + w.Margin())
  {
    hide Search.Radius, Search.Margin, Search.MinStep, Search.WellFormed;
    EdgesNonzero(w);
    MarginCovers(w);
    forall p, q | Outside(w, p, q)
      ensures w.norm(p, q) > w.targetXy + w.Margin()
    {
      if w.norm(p, q) <= w.targetXy + w.Margin() {
        var i, j := MeetsMargin(w, p, q);
        OutsideIsNoCandidate(w, i, j);
      }
    }
  }

  lemma OutsideIsNoCandidate(w: Search, p: int, q: int)
    requires w.MinStep() > 0.0 && Outside(w, p, q)
    ensures !w.IsCandidate(p, q) && !(p == 0 && q == 0)
  {
    RadiusPositive(w);
    hide Search.Radius, Search.Margin, Search.MinStep;
  }

  lemma MarginCovers(w: Search)
    ensures 2.0 * AbsR(w.a) <= w.Margin() && 2.0 * AbsR(w.b) <= w.Margin()
  {
  }

  // Walking along its row or column from a short vector outside the radius reaches one within the margin.
  lemma MeetsMargin(w: Search, p: int, q: int) returns (i: int, j: int)
    requires w.WellFormed() && w.MinStep() > 0.0 && Outside(w, p, q)
    requires w.norm(p, q) <= w.targetXy + w.Margin()
    ensures Outside(w, i, j) && AbsR(w.norm(i, j) - w.targetXy) <= w.Margin()
  {
    hide Search.Radius, Search.Margin, Search.MinStep, Search.WellFormed, Search.X, Search.Y, RowGap, ColumnGap;
    EdgesNonzero(w);
    MarginCovers(w);
    i, j := p, q;
    var least := w.targetXy - w.Margin();
    if w.norm(p, q) < least {
      if Abs(p) > w.Radius() {
        var far := FarAlong(q, ColumnGap(w), least);
        Distances(w, p, far);
        j := Climb(k => w.norm(p, k), q, far, least);
        StepInRow(w, p, j - 1);
      } else {
        var far := FarAlong(p, RowGap(w), least);
        Distances(w, far, q);
        i := Climb(k => w.norm(k, q), p, far, least);
        StepInColumn(w, i - 1, q);
      }
    }
  }

  // The first argument at which a function reaches a threshold.
  lemma {:induction false} Climb(f: int -> real, k: int, far: int, least: real) returns (j: int)
    requires k <= far && f(k) < least <= f(far)
    ensures f(j - 1) < least <= f(j)
    decreases far - k
  {
    if f(k + 1) >= least {
      j := k + 1;
    } else {
      j := Climb(f, k + 1, far, least);
    }
  }

  // A line beyond k that is far enough from the origin.
  lemma FarAlong(k: int, gap: real, least: real) returns (far: int)
    requires gap > 0.0
    ensures k <= far && far as real * gap >= least
  {
    var ratio := least / gap;
    CeilBounds(ratio);
    far := Max(k, Ceil(ratio));
    assert ratio * gap == least;
    MulMono(ratio, far as real, gap);
  }

  lemma StepInRow(w: Search, p: int, q: int)
    requires w.WellFormed()
    ensures w.norm(p, q + 1) <= w.norm(p, q) + AbsR(w.b)
  {
    hide *;
    UnitSumOf(w);
    LengthIs(w, p, q);
    LengthIs(w, p, q + 1);
    NextInRow(w, p, q);
    UnitTimes(w.b, w.cosG, w.sinG);
    Triangle(w.X(p, q), w.Y(p, q), w.norm(p, q), w.b * w.cosG, w.b * w.sinG, AbsR(w.b), w.norm(p, q + 1));
  }

  lemma StepInColumn(w: Search, p: int, q: int)
    requires w.WellFormed()
    ensures w.norm(p + 1, q) <= w.norm(p, q) + AbsR(w.a)
  {
    hide *;
    LengthIs(w, p, q);
    LengthIs(w, p + 1, q);
    NextInColumn(w, p, q);
    AbsSquare(w.a);
    Triangle(w.X(p, q), w.Y(p, q), w.norm(p, q), w.a, 0.0, AbsR(w.a), w.norm(p + 1, q));
  }

  lemma NextInRow(w: Search, p: int, q: int)
    ensures w.X(p, q + 1) == w.X(p, q) + w.b * w.cosG && w.Y(p, q + 1) == w.Y(p, q) + w.b * w.sinG
  {
  }

  lemma NextInColumn(w: Search, p: int, q: int)
    ensures w.X(p + 1, q) == w.X(p, q) + w.a && w.Y(p + 1, q) == w.Y(p, q)
  {
  }

  lemma LengthIs(w: Search, p: int, q: int)
    requires w.WellFormed()
    ensures w.norm(p, q) >= 0.0
    ensures w.norm(p, q) * w.norm(p, q) == w.X(p, q) * w.X(p, q) + w.Y(p, q) * w.Y(p, q)
  {
    hide Search.X, Search.Y;
    assert w.IsLength(p, q);
  }

  lemma UnitSumOf(w: Search)
    requires w.WellFormed()
    ensures w.cosG * w.cosG + w.sinG * w.sinG == 1.0
  {
  }

  lemma AbsSquare(x: real)
    ensures AbsR(x) * AbsR(x) == x * x && AbsR(x) >= 0.0
  {
  }

  lemma UnitTimes(x: real, c: real, s: real)
    requires c * c + s * s == 1.0
    ensures AbsR(x) * AbsR(x) == (x * c) * (x * c) + (x * s) * (x * s) && AbsR(x) >= 0.0
  {
    AbsSquare(x);
    SquareOfProduct(x, c);
    SquareOfProduct(x, s);
    assert (x * x) * (c * c) + (x * x) * (s * s) == (x * x) * (c * c + s * s);
  }

  lemma Triangle(x: real, y: real, len: real, dx: real, dy: real, d: real, sum: real)
    requires len >= 0.0 && len * len == x * x + y * y
    requires d >= 0.0 && d * d == dx * dx + dy * dy
    requires sum >= 0.0 && sum * sum == (x + dx) * (x + dx) + (y + dy) * (y + dy)
    ensures sum <= len + d
  {
    var dot, cross := x * dx + y * dy, x * dy - y * dx;
    Lagrange(x, y, dx, dy);
    SquareOfProduct(len, d);
    assert cross * cross >= 0.0;
    assert len * d >= 0.0;
    SquareRootMono(dot, len * d);
    assert sum * sum == len * len + 2.0 * dot + d * d;
    assert (len + d) * (len + d) == len * len + 2.0 * (len * d) + d * d;
    SquareRootMono(sum, len + d);
  }

  // ---------------------------------------------------------------- one vector for each row and column

  lemma LinesClearIff(w: Search, reach: real)
    requires w.WellFormed() && w.MinStep() > 0.0 && w.a != 0.0 && w.b != 0.0
    ensures LinesClear(w, reach) <==> NoneShort(w, reach)
  {
    hide Search.Radius, Search.MinStep, Search.WellFormed, ShortestInRow, ShortestInColumn, InReach;
    RadiusPositive(w);
    if NoneShort(w, reach) {
      forall p | w.Radius() < p
        ensures w.norm(p, ShortestInRow(w, p)) > reach
      {
        assert Outside(w, p, ShortestInRow(w, p));
      }
      forall q | w.Radius() < q
        ensures w.norm(ShortestInColumn(w, q), q) > reach
      {
        assert Outside(w, ShortestInColumn(w, q), q);
      }
    }
    if LinesClear(w, reach) {
      forall p, q | Outside(w, p, q)
        ensures w.norm(p, q) > reach
      {
        OutsideIsLong(w, p, q, reach);
      }
    }
  }

  lemma OutsideIsLong(w: Search, p: int, q: int, reach: real)
    requires w.WellFormed() && w.MinStep() > 0.0 && w.a != 0.0 && w.b != 0.0
    requires LinesClear(w, reach) && Outside(w, p, q)
    ensures w.norm(p, q) > reach
  {
    hide Search.Radius, Search.MinStep, Search.WellFormed, ShortestInRow, ShortestInColumn, InReach;
    RadiusPositive(w);
    Reversed(w, p, q);
    if p > w.Radius() {
      RowIsLong(w, p, q, reach);
    } else if p < -w.Radius() {
      RowIsLong(w, -p, -q, reach);
    } else if q > w.Radius() {
      ColumnIsLong(w, p, q, reach);
    } else {
      ColumnIsLong(w, -p, -q, reach);
    }
  }

  lemma RowIsLong(w: Search, p: int, q: int, reach: real)
    requires w.WellFormed() && w.b != 0.0
    requires InReach(p, RowGap(w), reach) ==> w.norm(p, ShortestInRow(w, p)) > reach
    ensures w.norm(p, q) > reach
  {
    hide *;
    ShortestOfRow(w, p, q);
    Distances(w, p, q);
    ReachIs(p, RowGap(w), reach);
  }

  lemma ColumnIsLong(w: Search, p: int, q: int, reach: real)
    requires w.WellFormed() && w.a != 0.0
    requires InReach(q, ColumnGap(w), reach) ==> w.norm(ShortestInColumn(w, q), q) > reach
    ensures w.norm(p, q) > reach
  {
    hide *;
    ShortestOfColumn(w, p, q);
    Distances(w, p, q);
    ReachIs(q, ColumnGap(w), reach);
  }

  lemma ReachIs(k: int, gap: real, reach: real)
    ensures InReach(k, gap, reach) <==> k as real * gap <= reach
  {
  }

  // A vector and its opposite are equally long.
  lemma Reversed(w: Search, p: int, q: int)
    requires w.WellFormed()
    ensures w.norm(-p, -q) == w.norm(p, q)
  {
    hide Search.WellFormed;
    LengthIs(w, p, q);
    LengthIs(w, -p, -q);
    assert w.X(-p, -q) == -w.X(p, q) && w.Y(-p, -q) == -w.Y(p, q);
    hide Search.X, Search.Y;
    EqualRoots(w.norm(p, q), w.norm(-p, -q));
  }

  lemma EqualRoots(x: real, y: real)
    requires x >= 0.0 && y >= 0.0 && x * x == y * y
    ensures x == y
  {
    SquareRootMono(x, y);
    SquareRootMono(y, x);
  }

  lemma ShortestOfRow(w: Search, p: int, q: int)
    requires w.WellFormed() && w.b != 0.0
    ensures w.norm(p, ShortestInRow(w, p)) <= w.norm(p, q)
  {
    hide *;
    var t := ShortestInRow(w, p);
    var near, far := AlongSecond(w, p) + t as real * w.b, AlongSecond(w, p) + q as real * w.b;
    RowOffset(w, p, q, t, near, far);
    LengthIs(w, p, t);
    LengthIs(w, p, q);
    AlongRow(w, p, t);
    AlongRow(w, p, q);
    Closer(w.norm(p, t), w.norm(p, q), p as real * (w.a * w.sinG), near, far);
  }

  lemma ShortestOfColumn(w: Search, p: int, q: int)
    requires w.WellFormed() && w.a != 0.0
    ensures w.norm(ShortestInColumn(w, q), q) <= w.norm(p, q)
  {
    hide *;
    var t := ShortestInColumn(w, q);
    ColumnX(w, t, q);
    ColumnX(w, p, q);
    ColumnOffset(w, p, q, t, w.X(t, q), w.X(p, q));
    LengthIs(w, t, q);
    LengthIs(w, p, q);
    AlongColumn(w, t, q);
    AlongColumn(w, p, q);
    Closer(w.norm(t, q), w.norm(p, q), q as real * (w.b * w.sinG), w.X(t, q), w.X(p, q));
  }

  lemma RowOffset(w: Search, p: int, q: int, t: int, near: real, far: real)
    requires w.b != 0.0 && t == ShortestInRow(w, p)
    requires near == AlongSecond(w, p) + t as real * w.b && far == AlongSecond(w, p) + q as real * w.b
    ensures AbsR(near) <= AbsR(far)
  {
    hide NearestTo, AlongSecond, Numeric.AbsR;
    NearestMultiple(AlongSecond(w, p), w.b, t, q, near, far);
  }

  lemma ColumnOffset(w: Search, p: int, q: int, t: int, near: real, far: real)
    requires w.a != 0.0 && t == ShortestInColumn(w, q)
    requires near == AlongFirst(w, q) + t as real * w.a && far == AlongFirst(w, q) + p as real * w.a
    ensures AbsR(near) <= AbsR(far)
  {
    hide NearestTo, AlongFirst, Numeric.AbsR;
    NearestMultiple(AlongFirst(w, q), w.a, t, p, near, far);
  }

  lemma ColumnX(w: Search, p: int, q: int)
    ensures w.X(p, q) == AlongFirst(w, q) + p as real * w.a
  {
  }

  lemma NearestMultiple(base: real, unit: real, n: int, k: int, near: real, far: real)
    requires unit != 0.0 && n == NearestTo(base, unit)
    requires near == base + n as real * unit && far == base + k as real * unit
    ensures AbsR(near) <= AbsR(far)
  {
    var ratio := -base / unit;
    RoundIsNearest(ratio, k);
    NearestStep(base, unit, ratio, n, k, near, far);
  }

  lemma NearestStep(base: real, unit: real, ratio: real, n: int, k: int, near: real, far: real)
    requires unit != 0.0 && ratio == -base / unit && AbsR(ratio - n as real) <= AbsR(ratio - k as real)
    requires near == base + n as real * unit && far == base + k as real * unit
    ensures AbsR(near) <= AbsR(far)
  {
    hide *;
    var d, e := ratio - n as real, ratio - k as real;
    OffsetIs(base, unit, ratio, n, d, near);
    OffsetIs(base, unit, ratio, k, e, far);
    AbsNonnegative(unit);
    MulMono(AbsR(d), AbsR(e), AbsR(unit));
  }

  lemma AbsNonnegative(x: real)
    ensures AbsR(x) >= 0.0
  {
  }

  lemma OffsetIs(base: real, unit: real, ratio: real, k: int, d: real, offset: real)
    requires unit != 0.0 && ratio == -base / unit && d == ratio - k as real && offset == base + k as real * unit
    ensures AbsR(offset) == AbsR(d) * AbsR(unit)
  {
    assert ratio * unit == -base;
    assert d * unit == -offset;
    AbsOfProduct(d, unit, -offset);
  }

  lemma AbsOfProduct(x: real, y: real, z: real)
    requires z == x * y
    ensures AbsR(z) == AbsR(x) * AbsR(y)
  {
    if x >= 0.0 {
      AbsProduct(x, y);
    } else {
      AbsProduct(-x, y);
      assert (-x) * y == -(x * y);
    }
  }

  lemma AlongRow(w: Search, p: int, q: int)
    requires w.WellFormed()
    ensures var across, along := p as real * (w.a * w.sinG), AlongSecond(w, p) + q as real * w.b;
      w.X(p, q) * w.X(p, q) + w.Y(p, q) * w.Y(p, q) == across * across + along * along
  {
    hide *;
    UnitSumOf(w);
    Components(w, p, q);
    AlongOf(w, p, q);
    Turned(w.cosG, w.sinG, w.X(p, q), w.Y(p, q));
  }

  lemma AlongColumn(w: Search, p: int, q: int)
    ensures w.Y(p, q) == q as real * (w.b * w.sinG)
  {
  }

  // Turning a vector by the angle of the cell.
  lemma Turned(c: real, s: real, x: real, y: real)
    requires c * c + s * s == 1.0
    ensures x * x + y * y == (x * s - y * c) * (x * s - y * c) + (x * c + y * s) * (x * c + y * s)
  {
    Lagrange(c, s, x, y);
    assert (x * s - y * c) * (x * s - y * c) == (c * y - s * x) * (c * y - s * x);
    assert c * x + s * y == x * c + y * s;
  }

  lemma Closer(near: real, far: real, across: real, x: real, y: real)
    requires near >= 0.0 && near * near == across * across + x * x
    requires far >= 0.0 && far * far == across * across + y * y
    requires AbsR(x) <= AbsR(y)
    ensures near <= far
  {
    AbsSquare(x);
    AbsSquare(y);
    SquareMono(AbsR(x), AbsR(y));
    SquareRootMono(near, far);
  }

  // ---------------------------------------------------------------- sufficient conditions

  /** Every lattice vector within the length margin is a candidate, provided the longest admitted length reaches no
      further than the radius in either lattice direction. */
  lemma RadiusComplete(w: Search)
    requires w.WellFormed() && w.MinStep() > 0.0
    requires w.targetXy + w.Margin() < (w.Radius() + 1) as real * RowGap(w)
    requires w.targetXy + w.Margin() < (w.Radius() + 1) as real * ColumnGap(w)
    ensures Complete(w)
  {
    hide Search.Radius, Search.Margin, Search.MinStep, Search.WellFormed, RowGap, ColumnGap, InReach;
    EdgesNonzero(w);
    var reach := w.targetXy + w.Margin();
    NothingInReach(w.Radius(), RowGap(w), reach);
    NothingInReach(w.Radius(), ColumnGap(w), reach);
    assert LinesClear(w, reach);
    RadiusCompleteIff(w);
  }

  lemma NothingInReach(radius: int, gap: real, reach: real)
    requires gap > 0.0 && reach < (radius + 1) as real * gap
    ensures forall k :: radius < k ==> !InReach(k, gap, reach)
  {
    forall k | radius < k
      ensures !InReach(k, gap, reach)
    {
      MulMono((radius + 1) as real, k as real, gap);
    }
  }

  /** With equal edges and an angle between 30 and 150 degrees, so on every hexagonal cell, the radius is complete. */
  lemma EqualEdgesComplete(w: Search)
    requires w.WellFormed() && w.MinStep() > 0.0 && AbsR(w.a) == AbsR(w.b) && AbsR(w.sinG) > 0.5
    ensures Complete(w)
  {
    hide *;
    UnitSumOf(w);
    GapsOf(w);
    AbsNonnegative(w.a);
    SineBelowOne(w.cosG, w.sinG, AbsR(w.a));
    EqualEdgesStep(w);
    var ratio := w.targetXy / w.MinStep();
    EqualEdges(AbsR(w.a), AbsR(w.sinG), w.targetXy, ratio, w.Radius(), w.MinStep());
    RadiusComplete(w);
  }

  lemma GapsOf(w: Search)
    ensures RowGap(w) == AbsR(w.a) * AbsR(w.sinG) && ColumnGap(w) == AbsR(w.b) * AbsR(w.sinG)
  {
    AbsOfProduct(w.a, w.sinG, w.a * w.sinG);
    AbsOfProduct(w.b, w.sinG, w.b * w.sinG);
  }

  lemma SineBelowOne(c: real, s: real, edge: real)
    requires c * c + s * s == 1.0 && edge >= 0.0
    ensures AbsR(s) <= 1.0 && edge * AbsR(s) <= edge
  {
    assert c * c >= 0.0;
    SquareRootMono(s, 1.0);
    MulMono(AbsR(s), 1.0, edge);
  }

  lemma EqualEdgesStep(w: Search)
    requires w.MinStep() > 0.0 && AbsR(w.a) == AbsR(w.b) && ColumnGap(w) == AbsR(w.b) * AbsR(w.sinG)
    requires AbsR(w.a) * AbsR(w.sinG) <= AbsR(w.a)
    ensures w.MinStep() == AbsR(w.a) * AbsR(w.sinG) && w.Margin() == 2.0 * AbsR(w.a) && AbsR(w.a) > 0.0
    ensures w.Radius() as real >= w.targetXy / w.MinStep() + 3.0
  {
    assert w.MinStep() == MinR(AbsR(w.a), ColumnGap(w));
    RadiusAtLeast(w);
    hide Search.Radius, ColumnGap;
  }

  lemma RadiusAtLeast(w: Search)
    requires w.MinStep() > 0.0
    ensures w.Radius() as real >= w.targetXy / w.MinStep() + 3.0
  {
    CeilBounds(w.targetXy / w.MinStep());
    hide Numeric.Ceil, Search.MinStep;
  }

  lemma EqualEdges(e: real, s: real, target: real, ratio: real, radius: int, step: real)
    requires step == e * s && step > 0.0 && e > 0.0 && s > 0.5
    requires ratio == target / step && radius as real >= ratio + 3.0
    ensures target + 2.0 * e < (radius + 1) as real * step
  {
    assert ratio * step == target;
    assert (ratio + 4.0) * step == target + 4.0 * step;
    MulMono(ratio + 4.0, (radius + 1) as real, step);
    var d := s - 0.5;
    assert d * e == step - 0.5 * e;
    assert d * e > 0.0;
    assert 4.0 * step > 2.0 * e;
  }

  // ---------------------------------------------------------------- components of a vector

  lemma Components(w: Search, p: int, q: int)
    ensures w.X(p, q) * w.sinG - w.Y(p, q) * w.cosG == p as real * (w.a * w.sinG)
    ensures w.Y(p, q) == q as real * (w.b * w.sinG)
  {
    Across(p as real, q as real, w.a, w.b, w.sinG, w.cosG, w.X(p, q), w.Y(p, q));
  }

  lemma AlongOf(w: Search, p: int, q: int)
    requires w.cosG * w.cosG + w.sinG * w.sinG == 1.0
    ensures w.X(p, q) * w.cosG + w.Y(p, q) * w.sinG == AlongSecond(w, p) + q as real * w.b
  {
    Along(p as real * w.a, q as real * w.b, w.sinG, w.cosG, w.X(p, q), w.Y(p, q));
  }

  lemma Along(pa: real, qb: real, s: real, c: real, x: real, y: real)
    requires x == pa + qb * c && y == qb * s && c * c + s * s == 1.0
    ensures x * c + y * s == pa * c + qb
  {
    assert (qb * c) * c == qb * (c * c) && (qb * s) * s == qb * (s * s);
    assert qb * (c * c) + qb * (s * s) == qb * (c * c + s * s);
    assert x * c == pa * c + (qb * c) * c;
  }

  // The components of a vector along the second lattice direction and across it.
  lemma Across(p: real, q: real, a: real, b: real, sinG: real, cosG: real, x: real, y: real)
    requires x == p * a + q * (b * cosG) && y == p * 0.0 + q * (b * sinG)
    ensures x * sinG - y * cosG == p * (a * sinG) && y == q * (b * sinG)
  {
    assert (q * (b * cosG)) * sinG == (q * (b * sinG)) * cosG;
    assert (p * a) * sinG == p * (a * sinG);
  }

  // A vector is at least as long as its distance from either axis of the lattice.
  lemma Distances(w: Search, p: int, q: int)
    requires w.WellFormed()
    ensures p as real * RowGap(w) <= w.norm(p, q) && q as real * ColumnGap(w) <= w.norm(p, q)
  {
    hide *;
    UnitSumOf(w);
    LengthIs(w, p, q);
    Components(w, p, q);
    AcrossVector(w.X(p, q), w.Y(p, q), w.sinG, w.cosG, w.norm(p, q));
    GapBound(w, p, q, w.X(p, q) * w.sinG - w.Y(p, q) * w.cosG, w.Y(p, q), w.norm(p, q));
  }

  lemma GapBound(w: Search, p: int, q: int, across: real, y: real, len: real)
    requires across == p as real * (w.a * w.sinG) && y == q as real * (w.b * w.sinG)
    requires -len <= across <= len && -len <= y <= len
    ensures p as real * RowGap(w) <= len && q as real * ColumnGap(w) <= len
  {
  }

  // Neither component of a vector is longer than the vector.
  lemma AcrossVector(x: real, y: real, sinG: real, cosG: real, len: real)
    requires cosG * cosG + sinG * sinG == 1.0 && len >= 0.0 && len * len == x * x + y * y
    ensures -len <= x * sinG - y * cosG <= len && -len <= y <= len
  {
    Lagrange(cosG, sinG, x, y);
    var d, e := cosG * y - sinG * x, cosG * x + sinG * y;
    assert d * d + e * e == len * len;
    assert e * e >= 0.0;
    SquareRootMono(d, len);
    assert x * x >= 0.0;
    SquareRootMono(y, len);
  }

  lemma SquareRootMono(d: real, len: real)
    requires len >= 0.0 && d * d <= len * len
    ensures AbsR(d) <= len
  {
    if AbsR(d) > len {
      StrictSquare(len, AbsR(d));
    }
  }

  lemma StrictSquare(x: real, y: real)
    requires 0.0 <= x < y
    ensures x * x < y * y
  {
    var d := y - x;
    assert y * y == x * x + d * x + d * y;
    assert d * x >= 0.0 && d * y > 0.0;
  }

  /** On a very elongated cell the condition fails: a vector within the margin lies outside the radius. */
  lemma RadiusMisses(w: Search)
    requires w.WellFormed() && w.a == 100.0 && w.b == 1.0 && w.cosG == 0.6 && w.sinG == 0.8 && w.targetXy == 1.0
    ensures w.MinStep() > 0.0 && AbsR(w.norm(0, 100) - w.targetXy) <= w.Margin() && !w.IsCandidate(0, 100)
    ensures !Complete(w)
  {
    var len := w.norm(0, 100);
    assert w.X(0, 100) == 60.0 && w.Y(0, 100) == 80.0;
    assert w.IsLength(0, 100);
    assert len * len == 10000.0;
    SquareRootMono(len, 100.0);
    assert w.MinStep() == 0.8;
    assert w.targetXy / w.MinStep() == 1.25;
    assert w.Radius() == 5;
  }
}
