/** How well the number of layers matches the target thickness. */
module SlabLayers {
  import opened Common
  import opened Numeric
  import opened SupercellSearch

  // How far n cells are from the target.
  function Miss(n: int, cell: real, target: real): real {
    AbsR(n as real * cell - target)
  }

  // n layers are thick enough.
  predicate Reaches(n: int, cell: real, least: real) {
    least <= n as real * cell
  }

  lemma MissIs(n: int, cell: real, target: real, ratio: real)
    requires cell > 0.0 && ratio == target / cell
    ensures Miss(n, cell, target) == AbsR(n as real - ratio) * cell
  {
    assert ratio * cell == target;
    var d := n as real - ratio;
    assert d * cell == n as real * cell - target;
    assert d >= 0.0 ==> d * cell >= 0.0;
    assert d <= 0.0 ==> d * cell <= 0.0;
    assert (-d) * cell == -(d * cell);
  }

  lemma MissMono(n: int, k: int, cell: real, target: real, ratio: real)
    requires cell > 0.0 && ratio == target / cell && AbsR(n as real - ratio) <= AbsR(k as real - ratio)
    ensures Miss(n, cell, target) <= Miss(k, cell, target)
  {
    hide Miss, Numeric.AbsR;
    MissIs(n, cell, target, ratio);
    MissIs(k, cell, target, ratio);
    MulMono(AbsR(n as real - ratio), AbsR(k as real - ratio), cell);
  }

  // Rounded, but at least one layer: no other positive number is closer.
  lemma RoundedIsNearest(ratio: real, n: int)
    requires ratio > 0.0 && n >= 1
    ensures AbsR(Max(1, Round(ratio)) as real - ratio) <= AbsR(n as real - ratio)
  {
    RoundIsNearest(ratio, n);
    RoundError(ratio);
    hide Numeric.Round;
  }

  // Rounded up: nearest among the numbers above the rounded one.
  lemma RaisedIsNearest(ratio: real, n: int)
    requires ratio > 0.0 && n > Max(1, Round(ratio)) && Round(ratio) as real < ratio
    ensures AbsR(Max(1, Ceil(ratio)) as real - ratio) <= AbsR(n as real - ratio)
  {
    RoundError(ratio);
    CeilBounds(ratio);
    hide *;
    MaxIs(Round(ratio));
    RaisedCore(ratio, Round(ratio), Ceil(ratio), n);
  }

  lemma MaxIs(k: int)
    ensures Max(1, k) >= 1 && Max(1, k) >= k
  {
  }

  lemma RaisedCore(ratio: real, k: int, up: int, n: int)
    requires AbsR(ratio - k as real) <= 0.5 && k as real < ratio && ratio <= up as real < ratio + 1.0
    requires n > k && n > 1
    ensures AbsR(Max(1, up) as real - ratio) <= AbsR(n as real - ratio)
  {
    assert up as real < (k + 2) as real;
    assert up <= k + 1;
  }

  /** Among all numbers of layers that reach the least fraction of the target, the chosen one is nearest to it. */
  lemma BestNzIsBest(targetZ: real, cellZ: real, minFrac: real, n: int)
    requires targetZ > 0.0 && minFrac <= 1.0 && n >= 1
    requires Reaches(n, MaxR(cellZ, TINY), targetZ * minFrac)
    ensures Miss(BestNz(targetZ, cellZ, minFrac), MaxR(cellZ, TINY), targetZ) <= Miss(n, MaxR(cellZ, TINY), targetZ)
  {
    var cell := MaxR(cellZ, TINY);
    NearestLayers(targetZ, cell, minFrac, n, targetZ / cell);
    hide Miss, Numeric.Round, Numeric.Ceil;
  }

  lemma NearestLayers(target: real, cell: real, minFrac: real, n: int, ratio: real)
    requires target > 0.0 && cell > 0.0 && minFrac <= 1.0 && n >= 1 && ratio == target / cell
    requires Reaches(n, cell, target * minFrac)
    ensures var k, up := Max(1, Round(ratio)), Max(1, Ceil(ratio));
      Miss(if Reaches(k, cell, target * minFrac) then k else up, cell, target) <= Miss(n, cell, target)
  {
    hide Miss, Numeric.Round, Numeric.Ceil;
    assert ratio * cell == target;
    assert ratio <= 0.0 ==> ratio * cell <= 0.0;
    var k, up := Max(1, Round(ratio)), Max(1, Ceil(ratio));
    if Reaches(k, cell, target * minFrac) {
      RoundedIsNearest(ratio, n);
      MissMono(k, n, cell, target, ratio);
    } else {
      BelowTarget(k, n, cell, target, minFrac, ratio);
      RaisedIsNearest(ratio, n);
      MissMono(up, n, cell, target, ratio);
    }
  }

  lemma BelowTarget(k: int, n: int, cell: real, target: real, minFrac: real, ratio: real)
    requires target > 0.0 && cell > 0.0 && minFrac <= 1.0 && ratio * cell == target
    requires Reaches(n, cell, target * minFrac) && !Reaches(k, cell, target * minFrac)
    ensures k < n && k as real < ratio
  {
    if n <= k {
      MulMono(n as real, k as real, cell);
    }
    MulMono(minFrac, 1.0, target);
    if ratio <= k as real {
      MulMono(ratio, k as real, cell);
    }
  }

  // Once beyond the nearest number, more layers are never nearer.
  lemma MoreMissMore(best: int, k: int, n: int, cell: real, target: real)
    requires cell > 0.0 && best < k <= n && Miss(best, cell, target) <= Miss(k, cell, target)
    ensures Miss(k, cell, target) <= Miss(n, cell, target)
  {
    var x, y, z := best as real * cell, k as real * cell, n as real * cell;
    Further(best, k, cell, x, y);
    if k < n {
      Further(k, n, cell, y, z);
    }
    MissNamed(best, cell, target, x);
    MissNamed(k, cell, target, y);
    MissNamed(n, cell, target, z);
    hide Miss;
    FurtherOut(x, y, z, target);
  }

  lemma Further(n: int, k: int, cell: real, x: real, y: real)
    requires n < k && cell > 0.0 && x == n as real * cell && y == k as real * cell
    ensures x < y
  {
    var d := k as real - n as real;
    assert d * cell > 0.0;
    assert y - x == d * cell;
  }

  lemma MissNamed(n: int, cell: real, target: real, height: real)
    requires height == n as real * cell
    ensures Miss(n, cell, target) == AbsR(height - target)
  {
  }

  lemma FurtherOut(x: real, y: real, z: real, target: real)
    requires x < y <= z && AbsR(x - target) <= AbsR(y - target)
    ensures AbsR(y - target) <= AbsR(z - target)
  {
  }

  /** The number of layers of the search: at least one, at least the given minimum, at least 0.8 of the target
      thickness, and nearest to it among all such numbers. */
  lemma LayersAreBest(w: Search, cellZ: real, n: int)
    requires w.targetZ > 0.0
    ensures var cell, nz := MaxR(cellZ, TINY), w.Nz(cellZ);
      && nz >= 1 && nz >= w.minNz && Reaches(nz, cell, w.targetZ * 0.8)
      && (n >= 1 && n >= w.minNz && Reaches(n, cell, w.targetZ * 0.8) ==>
            Miss(nz, cell, w.targetZ) <= Miss(n, cell, w.targetZ))
  {
    var cell, best := MaxR(cellZ, TINY), BestNz(w.targetZ, cellZ, 0.8);
    BestNzThickness(w.targetZ, cellZ, 0.8);
    NzIs(w, cellZ);
    CellPositive(cellZ);
    hide *;
    var nz := w.Nz(cellZ);
    ReachMore(best, nz, cell, w.targetZ * 0.8, w.targetZ, 0.8);
    if n >= 1 && n >= w.minNz && Reaches(n, cell, w.targetZ * 0.8) {
      BestNzIsBest(w.targetZ, cellZ, 0.8, n);
      BestNzIsBest(w.targetZ, cellZ, 0.8, nz);
      if nz > best {
        MoreMissMore(best, nz, n, cell, w.targetZ);
      }
    }
  }

  lemma NzIs(w: Search, cellZ: real)
    ensures var best := BestNz(w.targetZ, cellZ, 0.8); w.Nz(cellZ) == if w.minNz > best then w.minNz else best
  {
    hide BestNz;
  }

  lemma CellPositive(cellZ: real)
    ensures MaxR(cellZ, TINY) > 0.0
  {
  }

  lemma ReachMore(best: int, nz: int, cell: real, least: real, target: real, fraction: real)
    requires best <= nz && cell > 0.0 && least == target * fraction && target * fraction <= best as real * cell
    ensures Reaches(nz, cell, least)
  {
    MulMono(best as real, nz as real, cell);
  }

  /** The same for the supercell that the search returns, whose height is that of its layers. */
  lemma FoundLayers(w: Search, n: int)
    requires Optimal(w).Success? && w.c >= TINY
    ensures var r := Optimal(w).value;
      && r.nz >= 1 && r.nz >= w.minNz && r.lz == r.nz as real * w.c && r.lz >= 0.8 * w.targetZ
      && (n >= 1 && n >= w.minNz && n as real * w.c >= 0.8 * w.targetZ ==>
            AbsR(r.lz - w.targetZ) <= AbsR(n as real * w.c - w.targetZ))
  {
    hide *;
    FoundHeight(w);
    LayersAreBest(w, w.c, n);
    NotClamped(w.c);
    MissAndReach(w.Nz(w.c), w.c, w.targetZ, Optimal(w).value.lz);
    MissAndReach(n, w.c, w.targetZ, n as real * w.c);
  }

  lemma NotClamped(c: real)
    requires c >= TINY
    ensures MaxR(c, TINY) == c
  {
  }

  lemma MissAndReach(n: int, cell: real, target: real, height: real)
    requires height == n as real * cell
    ensures Miss(n, cell, target) == AbsR(height - target)
    ensures Reaches(n, cell, target * 0.8) <==> height >= 0.8 * target
  {
  }

  lemma FoundHeight(w: Search)
    requires Optimal(w).Success? && w.c >= TINY
    ensures w.targetZ > 0.0
    ensures var r := Optimal(w).value; r.nz == w.Nz(w.c) && r.lz == r.nz as real * w.c
  {
    hide Search.IsBest, Search.BeatsDiagonal, Search.IsAcceptable, Search.IsCandidate, Search.MinStep,
         Search.IsRightAngled, Search.OrthogonalityError, Search.ErrorXyPct, Search.Nz, Search.X, Search.Y,
         Search.CellX, Search.CellY, Numeric.Round;
  }
}
