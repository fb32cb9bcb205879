/** Turning weight percentages into molecule counts: proportional rounding, a scan over atom targets, and hill climbing
    by single molecules inside an atom window. */
module Composition {
  import opened Common
  import opened Numeric

  datatype Molecule = Molecule(weight: real, atoms: nat)

  // One entry of the target composition; mol is absent when no molecule is available for the category.
  datatype Category = Category(name: string, wt: real, mol: Option<Molecule>)

  // Molecule counts, in the order of the categories.
  type Counts = seq<int>

  // Molecules have mass: the program divides by it.
  ghost predicate Weighted(cats: seq<Category>) {
    forall i :: 0 <= i < |cats| && cats[i].mol.Some? ==> cats[i].mol.value.weight > 0.0
  }

  // Percentages are shares, and molecules have atoms.
  ghost predicate WellFormed(cats: seq<Category>) {
    && Weighted(cats)
    && forall i :: 0 <= i < |cats| ==> cats[i].wt >= 0.0 && (cats[i].mol.Some? ==> cats[i].mol.value.atoms >= 1)
  }

  // ---------------------------------------------------------------- totals

  function TotalWt(cats: seq<Category>): real {
    if cats == [] then 0.0 else TotalWt(cats[..|cats| - 1]) + cats[|cats| - 1].wt
  }

  function AtomsOf(c: Category, count: int): int {
    if c.mol.None? then 0 else count * c.mol.value.atoms
  }

  function MassOf(c: Category, count: int): real {
    if c.mol.None? then 0.0 else count as real * c.mol.value.weight
  }

  function AtomTotal(cats: seq<Category>, counts: Counts): int
    requires |counts| == |cats|
  {
    if cats == [] then 0
    else var k := |cats| - 1; AtomTotal(cats[..k], counts[..k]) + AtomsOf(cats[k], counts[k])
  }

  function MassTotal(cats: seq<Category>, counts: Counts): real
    requires |counts| == |cats|
  {
    if cats == [] then 0.0
    else var k := |cats| - 1; MassTotal(cats[..k], counts[..k]) + MassOf(cats[k], counts[k])
  }

  function ActualWt(c: Category, count: int, totalMass: real): real {
    if totalMass == 0.0 || c.mol.None? then 0.0 else MassOf(c, count) / totalMass * 100.0
  }

  function L1Sum(cats: seq<Category>, counts: Counts, totalMass: real): real
    requires |counts| == |cats|
  {
    if cats == [] then 0.0
    else
      var k := |cats| - 1;
      L1Sum(cats[..k], counts[..k], totalMass) + AbsR(cats[k].wt - ActualWt(cats[k], counts[k], totalMass))
  }

  // The L1 distance between target and actual weight percentages.
  function L1Error(cats: seq<Category>, counts: Counts): real
    requires |counts| == |cats|
  {
    L1Sum(cats, counts, MassTotal(cats, counts))
  }

  // ---------------------------------------------------------------- normalisation

  function Normalized(cats: seq<Category>): (r: seq<Category>)
    requires TotalWt(cats) != 0.0
    ensures |r| == |cats|
  {
    var total := TotalWt(cats);
    if AbsR(total - 100.0) < 0.01 then cats
    else seq(|cats|, i requires 0 <= i < |cats| => cats[i].(wt := cats[i].wt * 100.0 / total))
  }

  lemma {:induction false} ScaledTotal(cats: seq<Category>, scaled: seq<Category>, total: real)
    requires total != 0.0 && |scaled| == |cats|
    requires forall i :: 0 <= i < |cats| ==> scaled[i].wt == cats[i].wt * 100.0 / total
    ensures TotalWt(scaled) == TotalWt(cats) * 100.0 / total
  {
    if cats != [] {
      var k := |cats| - 1;
      ScaledTotal(cats[..k], scaled[..k], total);
      AddQuotients(TotalWt(cats[..k]), cats[k].wt, total);
    }
  }

  lemma AddQuotients(x: real, y: real, d: real)
    requires d != 0.0
    ensures x * 100.0 / d + y * 100.0 / d == (x + y) * 100.0 / d
  {
  }

  /** After normalisation the percentages add up to 100, to within 0.01. */
  lemma NormalizedTotal(cats: seq<Category>)
    requires TotalWt(cats) != 0.0
    ensures AbsR(TotalWt(Normalized(cats)) - 100.0) < 0.01
  {
    var total := TotalWt(cats);
    if AbsR(total - 100.0) >= 0.01 {
      ScaledTotal(cats, Normalized(cats), total);
      PercentOfAll(total);
    }
  }

  lemma PercentOfAll(x: real)
    requires x != 0.0
    ensures x * 100.0 / x == 100.0
  {
    var q := x * 100.0 / x;
    assert q * x == x * 100.0;
    assert (q - 100.0) * x == 0.0;
  }

  // ---------------------------------------------------------------- what the error means

  function ShareSum(cats: seq<Category>, counts: Counts, totalMass: real): real
    requires |counts| == |cats|
  {
    if cats == [] then 0.0
    else var k := |cats| - 1; ShareSum(cats[..k], counts[..k], totalMass) + ActualWt(cats[k], counts[k], totalMass)
  }

  lemma {:induction false} ShareSumIs(cats: seq<Category>, counts: Counts, totalMass: real)
    requires |counts| == |cats| && totalMass != 0.0
    ensures ShareSum(cats, counts, totalMass) == MassTotal(cats, counts) / totalMass * 100.0
  {
    if cats != [] {
      var k := |cats| - 1;
      ShareSumIs(cats[..k], counts[..k], totalMass);
      SumOverMass(MassTotal(cats[..k], counts[..k]), MassOf(cats[k], counts[k]), totalMass);
    }
  }

  lemma SumOverMass(x: real, y: real, d: real)
    requires d != 0.0
    ensures (x + y) / d * 100.0 == x / d * 100.0 + y / d * 100.0
  {
  }

  /** The actual percentages of any allocation with mass add up to 100. */
  lemma SharesAddUp(cats: seq<Category>, counts: Counts)
    requires |counts| == |cats| && MassTotal(cats, counts) != 0.0
    ensures ShareSum(cats, counts, MassTotal(cats, counts)) == 100.0
  {
    var mass := MassTotal(cats, counts);
    ShareSumIs(cats, counts, mass);
    assert mass / mass == 1.0;
  }

  lemma {:induction false} L1SumFacts(cats: seq<Category>, counts: Counts, totalMass: real)
    requires |counts| == |cats|
    ensures AbsR(TotalWt(cats) - ShareSum(cats, counts, totalMass)) <= L1Sum(cats, counts, totalMass)
    ensures L1Sum(cats, counts, totalMass) == 0.0 <==>
      forall i :: 0 <= i < |cats| ==> ActualWt(cats[i], counts[i], totalMass) == cats[i].wt
  {
    hide ActualWt;
    if cats != [] {
      var k := |cats| - 1;
      L1SumFacts(cats[..k], counts[..k], totalMass);
      assert forall i :: 0 <= i < k ==> cats[..k][i] == cats[i] && counts[..k][i] == counts[i];
    }
  }

  /** The error is never negative, at least the gap between the target total and 100, and zero exactly when every
      category has its target percentage. */
  lemma ErrorMeaning(cats: seq<Category>, counts: Counts)
    requires |counts| == |cats| && MassTotal(cats, counts) != 0.0
    ensures AbsR(TotalWt(cats) - 100.0) <= L1Error(cats, counts)
    ensures L1Error(cats, counts) == 0.0 <==>
      forall i :: 0 <= i < |cats| ==> ActualWt(cats[i], counts[i], MassTotal(cats, counts)) == cats[i].wt
  {
    hide ActualWt;
    SharesAddUp(cats, counts);
    L1SumFacts(cats, counts, MassTotal(cats, counts));
  }

  // How far the categories that have too little fall short.
  function Shortfall(cats: seq<Category>, counts: Counts, totalMass: real): real
    requires |counts| == |cats|
  {
    if cats == [] then 0.0
    else
      var k := |cats| - 1;
      Shortfall(cats[..k], counts[..k], totalMass) + MaxR(0.0, cats[k].wt - ActualWt(cats[k], counts[k], totalMass))
  }

  lemma {:induction false} TwiceShortfall(cats: seq<Category>, counts: Counts, totalMass: real)
    requires |counts| == |cats|
    ensures L1Sum(cats, counts, totalMass)
      == 2.0 * Shortfall(cats, counts, totalMass) - (TotalWt(cats) - ShareSum(cats, counts, totalMass))
  {
    hide ActualWt;
    if cats != [] {
      TwiceShortfall(cats[..|cats| - 1], counts[..|cats| - 1], totalMass);
    }
  }

  /** When the target percentages add up to 100, the error is twice the sum of the shortfalls: what some categories have
      too little, the others have too much. */
  lemma ErrorIsTwiceShortfall(cats: seq<Category>, counts: Counts)
    requires |counts| == |cats| && MassTotal(cats, counts) != 0.0 && TotalWt(cats) == 100.0
    ensures L1Error(cats, counts) == 2.0 * Shortfall(cats, counts, MassTotal(cats, counts))
  {
    SharesAddUp(cats, counts);
    TwiceShortfall(cats, counts, MassTotal(cats, counts));
  }

  /** Two categories with n1 and n2 molecules: the totals, and the error as twice the deviation of either. */
  lemma TwoCategories(c1: Category, c2: Category, n1: int, n2: int)
    requires c1.mol.Some? && c2.mol.Some? && c1.wt + c2.wt == 100.0
    requires n1 as real * c1.mol.value.weight + n2 as real * c2.mol.value.weight != 0.0
    ensures var m1, m2 := n1 as real * c1.mol.value.weight, n2 as real * c2.mol.value.weight;
      && MassTotal([c1, c2], [n1, n2]) == m1 + m2
      && AtomTotal([c1, c2], [n1, n2]) == n1 * c1.mol.value.atoms + n2 * c2.mol.value.atoms
      && L1Error([c1, c2], [n1, n2]) == 2.0 * AbsR(c1.wt - m1 / (m1 + m2) * 100.0)
  {
    var cats, counts := [c1, c2], [n1, n2];
    PairOf(c1, c2, n1, n2);
    hide ActualWt, MassOf, AtomsOf;
    SharesAddUp(cats, counts);
    PairError(c1, c2, n1, n2, MassTotal(cats, counts));
  }

  lemma PairOf(c1: Category, c2: Category, n1: int, n2: int)
    requires c1.mol.Some? && c2.mol.Some?
    ensures MassTotal([c1, c2], [n1, n2])
      == n1 as real * c1.mol.value.weight + n2 as real * c2.mol.value.weight
    ensures AtomTotal([c1, c2], [n1, n2]) == n1 * c1.mol.value.atoms + n2 * c2.mol.value.atoms
  {
    var cats, counts := [c1, c2], [n1, n2];
    assert cats[..1] == [c1] && counts[..1] == [n1];
    SingleOf(c1, n1, 0.0);
  }

  lemma SingleOf(c: Category, n: int, mass: real)
    ensures MassTotal([c], [n]) == MassOf(c, n) && AtomTotal([c], [n]) == AtomsOf(c, n)
    ensures ShareSum([c], [n], mass) == ActualWt(c, n, mass)
    ensures L1Sum([c], [n], mass) == AbsR(c.wt - ActualWt(c, n, mass))
  {
    hide MassOf, AtomsOf, ActualWt;
    assert [c][..0] == [] && [n][..0] == [];
  }

  lemma PairError(c1: Category, c2: Category, n1: int, n2: int, mass: real)
    requires c1.mol.Some? && c2.mol.Some? && c1.wt + c2.wt == 100.0 && mass != 0.0
    requires ShareSum([c1, c2], [n1, n2], mass) == 100.0
    ensures L1Sum([c1, c2], [n1, n2], mass) == 2.0 * AbsR(c1.wt - (n1 as real * c1.mol.value.weight) / mass * 100.0)
  {
    var cats, counts := [c1, c2], [n1, n2];
    assert cats[..1] == [c1] && counts[..1] == [n1];
    SingleOf(c1, n1, mass);
    var a, b := ActualWt(c1, n1, mass), ActualWt(c2, n2, mass);
    assert ShareSum(cats, counts, mass) == a + b;
    assert L1Sum(cats, counts, mass) == AbsR(c1.wt - a) + AbsR(c2.wt - b);
  }

  /** One molecule more adds its weight and its atoms. */
  lemma {:induction false} OneMolecule(cats: seq<Category>, counts: Counts, i: nat)
    requires |counts| == |cats| && i < |cats| && cats[i].mol.Some?
    ensures var more := counts[i := counts[i] + 1];
      && MassTotal(cats, more) == MassTotal(cats, counts) + cats[i].mol.value.weight
      && AtomTotal(cats, more) == AtomTotal(cats, counts) + cats[i].mol.value.atoms
  {
    var k, more := |cats| - 1, counts[i := counts[i] + 1];
    if i < k {
      OneMolecule(cats[..k], counts[..k], i);
      assert more[..k] == counts[..k][i := counts[i] + 1];
    } else {
      assert more[..k] == counts[..k];
    }
  }

  // ---------------------------------------------------------------- proportional allocation

  function AtomsPerMass(c: Category, totalWt: real): real
    requires c.mol.Some? ==> c.mol.value.weight > 0.0
    requires totalWt != 0.0
  {
    if c.mol.None? then 0.0 else c.wt / totalWt * (c.mol.value.atoms as real / c.mol.value.weight)
  }

  function AvgAtomsPerMass(cats: seq<Category>, totalWt: real): real
    requires Weighted(cats) && totalWt != 0.0
  {
    if cats == [] then 0.0
    else var k := |cats| - 1; AvgAtomsPerMass(cats[..k], totalWt) + AtomsPerMass(cats[k], totalWt)
  }

  // The test for a composition without molecules: see NothingAvailableIff.
  predicate NothingAvailable(cats: seq<Category>)
    requires Weighted(cats) && TotalWt(cats) != 0.0
  {
    AvgAtomsPerMass(cats, TotalWt(cats)) == 0.0
  }

  /** For shares, the test says that no category with a share has a molecule. */
  lemma NothingAvailableIff(cats: seq<Category>)
    requires WellFormed(cats) && TotalWt(cats) != 0.0
    ensures NothingAvailable(cats) <==> forall i :: 0 <= i < |cats| && cats[i].mol.Some? ==> cats[i].wt == 0.0
  {
    TotalNonNegative(cats);
    AverageZeroIff(cats, TotalWt(cats));
  }

  lemma {:induction false} TotalNonNegative(cats: seq<Category>)
    requires WellFormed(cats)
    ensures TotalWt(cats) >= 0.0
    ensures TotalWt(cats) == 0.0 <==> forall i :: 0 <= i < |cats| ==> cats[i].wt == 0.0
  {
    if cats != [] {
      TotalNonNegative(cats[..|cats| - 1]);
      assert cats == cats[..|cats| - 1] + [cats[|cats| - 1]];
    }
  }

  lemma {:induction false} AverageZeroIff(cats: seq<Category>, totalWt: real)
    requires WellFormed(cats) && totalWt > 0.0
    ensures AvgAtomsPerMass(cats, totalWt) >= 0.0
    ensures AvgAtomsPerMass(cats, totalWt) == 0.0 <==>
      forall i :: 0 <= i < |cats| && cats[i].mol.Some? ==> cats[i].wt == 0.0
  {
    if cats != [] {
      var k := |cats| - 1;
      AverageZeroIff(cats[..k], totalWt);
      ShareZeroIff(cats[k], totalWt);
      hide AtomsPerMass;
      assert cats == cats[..k] + [cats[k]];
    }
  }

  lemma ShareZeroIff(c: Category, totalWt: real)
    requires totalWt > 0.0 && c.wt >= 0.0
    requires c.mol.Some? ==> c.mol.value.weight > 0.0 && c.mol.value.atoms >= 1
    ensures AtomsPerMass(c, totalWt) >= 0.0
    ensures AtomsPerMass(c, totalWt) == 0.0 <==> c.mol.None? || c.wt == 0.0
  {
    if c.mol.Some? {
      var share, density := c.wt / totalWt, c.mol.value.atoms as real / c.mol.value.weight;
      assert share * totalWt == c.wt && density * c.mol.value.weight == c.mol.value.atoms as real;
      assert density > 0.0 && share >= 0.0;
      ProductZeroIff(share, density);
    }
  }

  lemma ProductZeroIff(x: real, y: real)
    requires x >= 0.0 && y > 0.0
    ensures x * y >= 0.0 && (x * y == 0.0 <==> x == 0.0)
  {
  }

  // The unrounded number of molecules of a category in the estimated total mass.
  function Ideal(c: Category, mass: real): real
    requires c.mol.Some? && c.mol.value.weight > 0.0
  {
    mass * (c.wt / 100.0) / c.mol.value.weight
  }

  function InitialCount(c: Category, mass: real): int
    requires c.mol.Some? ==> c.mol.value.weight > 0.0
  {
    if c.mol.None? then 0 else Max(1, Round(Ideal(c, mass)))
  }

  /** The rounded share: at least one molecule, and no other positive number is nearer to the mass that the percentage
      asks for. */
  lemma InitialIsNearest(c: Category, mass: real, n: int)
    requires c.mol.Some? && c.mol.value.weight > 0.0 && n >= 1
    ensures var count, ideal := InitialCount(c, mass), Ideal(c, mass);
      && ideal * c.mol.value.weight == mass * (c.wt / 100.0)
      && count >= 1 && AbsR(count as real - ideal) <= AbsR(n as real - ideal)
  {
    var ideal := Ideal(c, mass);
    assert ideal * c.mol.value.weight == mass * (c.wt / 100.0);
    hide Ideal;
    RoundIsNearest(ideal, n);
    RoundError(ideal);
    hide Numeric.Round;
  }

  function EstimatedMass(cats: seq<Category>, target: int): real
    requires Weighted(cats) && TotalWt(cats) != 0.0 && !NothingAvailable(cats)
  {
    target as real / AvgAtomsPerMass(cats, TotalWt(cats))
  }

  function InitialCounts(cats: seq<Category>, target: int): (r: Counts)
    requires Weighted(cats) && TotalWt(cats) != 0.0 && !NothingAvailable(cats)
    ensures |r| == |cats|
  {
    var mass := EstimatedMass(cats, target);
    seq(|cats|, i requires 0 <= i < |cats| => InitialCount(cats[i], mass))
  }

  lemma TotalsSnoc(cats: seq<Category>, counts: Counts, i: nat)
    requires i < |cats| == |counts|
    ensures AtomTotal(cats[..i + 1], counts[..i + 1]) == AtomTotal(cats[..i], counts[..i]) + AtomsOf(cats[i], counts[i])
    ensures MassTotal(cats[..i + 1], counts[..i + 1]) == MassTotal(cats[..i], counts[..i]) + MassOf(cats[i], counts[i])
    ensures TotalWt(cats[..i + 1]) == TotalWt(cats[..i]) + cats[i].wt
  {
    assert cats[..i + 1][..i] == cats[..i] && counts[..i + 1][..i] == counts[..i];
  }

  lemma AverageIs(cats: seq<Category>)
    requires Weighted(cats) && TotalWt(cats) != 0.0
    ensures NothingAvailable(cats) <==> AvgAtomsPerMass(cats, TotalWt(cats)) == 0.0
  {
    hide AvgAtomsPerMass, TotalWt;
  }

  lemma EstimateIs(cats: seq<Category>, target: int, avg: real, estimated: real)
    requires Weighted(cats) && TotalWt(cats) != 0.0 && avg == AvgAtomsPerMass(cats, TotalWt(cats)) != 0.0
    requires estimated == target as real / avg
    ensures !NothingAvailable(cats)
    ensures forall i :: 0 <= i < |cats| ==> InitialCounts(cats, target)[i] == InitialCount(cats[i], estimated)
  {
    hide AvgAtomsPerMass, TotalWt, InitialCount;
    AverageIs(cats);
    assert EstimatedMass(cats, target) == estimated;
  }

  /** Fails when no molecule is available; otherwise rounds each share, keeping at least one molecule. */
  method InitialAllocation(cats: seq<Category>, target: int) returns (res: Option<(Counts, real)>)
    requires Weighted(cats) && TotalWt(cats) != 0.0
    ensures res.None? <==> NothingAvailable(cats)
    ensures res.Some? ==> res.value == (InitialCounts(cats, target), MassTotal(cats, InitialCounts(cats, target)))
  {
    hide AtomsPerMass, InitialCount, MassOf, AtomsOf, TotalWt, NothingAvailable, InitialCounts;
    var totalWt := TotalWt(cats);
    var avg := 0.0;
    for i := 0 to |cats|
      invariant avg == AvgAtomsPerMass(cats[..i], totalWt)
    {
      assert cats[..i + 1][..i] == cats[..i];
      avg := avg + AtomsPerMass(cats[i], totalWt);
    }
    assert cats[..|cats|] == cats;
    AverageIs(cats);
    if avg == 0.0 {
      return None;
    }
    hide AvgAtomsPerMass;
    var estimated := target as real / avg;
    EstimateIs(cats, target, avg, estimated);
    var counts: Counts, mass := [], 0.0;
    ghost var all := InitialCounts(cats, target);
    for i := 0 to |cats|
      invariant counts == all[..i]
      invariant mass == MassTotal(cats[..i], all[..i])
    {
      var count := InitialCount(cats[i], estimated);
      TotalsSnoc(cats, all, i);
      counts := counts + [count];
      mass := mass + MassOf(cats[i], count);
    }
    assert all[..|cats|] == all;
    return Some((counts, mass));
  }

  // ---------------------------------------------------------------- how far the atom total can miss

  function AtomCountSum(cats: seq<Category>): nat {
    if cats == [] then 0 else AtomCountSum(cats[..|cats| - 1]) + AtomsPerMolecule(cats[|cats| - 1])
  }

  // No category was raised to the minimum of one molecule.
  predicate Unclamped(cats: seq<Category>, mass: real)
    requires WellFormed(cats)
  {
    forall i :: 0 <= i < |cats| && cats[i].mol.Some? ==> Round(Ideal(cats[i], mass)) >= 1
  }

  // Atoms in the part of the mass with the given number of atoms per mass unit, of a total of totalWt percent.
  function AtomsIn(mass: real, totalWt: real, atomsPerMass: real): real {
    mass * totalWt / 100.0 * atomsPerMass
  }

  lemma AtomsInSum(mass: real, totalWt: real, x: real, y: real)
    ensures AtomsIn(mass, totalWt, x + y) == AtomsIn(mass, totalWt, x) + AtomsIn(mass, totalWt, y)
    ensures AtomsIn(mass, totalWt, 0.0) == 0.0
  {
  }

  // Ideal atoms of a category are its part of the average, scaled.
  lemma IdealShare(c: Category, mass: real, totalWt: real)
    requires c.mol.Some? && c.mol.value.weight > 0.0 && totalWt > 0.0
    ensures Ideal(c, mass) * c.mol.value.atoms as real == AtomsIn(mass, totalWt, AtomsPerMass(c, totalWt))
  {
    var w, n := c.mol.value.weight, c.mol.value.atoms as real;
    IdealShareCore(c.wt, mass, totalWt, w, n, c.wt / totalWt, n / w, mass * (c.wt / 100.0) / w);
  }

  lemma IdealShareCore(wt: real, mass: real, total: real, w: real, n: real, share: real, density: real, ideal: real)
    requires w > 0.0 && total > 0.0
    requires share == wt / total && density == n / w && ideal == mass * (wt / 100.0) / w
    ensures ideal * n == mass * total / 100.0 * (share * density)
  {
    assert share * total == wt && density * w == n && ideal * w == mass * (wt / 100.0);
    calc {
      mass * total / 100.0 * (share * density);
      mass / 100.0 * ((share * total) * density);
      mass / 100.0 * (wt * density);
      (mass * (wt / 100.0)) * density;
      (ideal * w) * density;
      ideal * (density * w);
      ideal * n;
    }
  }

  function AtomsPerMolecule(c: Category): nat {
    if c.mol.None? then 0 else c.mol.value.atoms
  }

  // Within the given number of atoms, or half of it.
  predicate Within(miss: real, atoms: nat, halved: bool) {
    AbsR(miss) <= atoms as real && (halved ==> AbsR(miss) <= atoms as real / 2.0)
  }

  // The miss of one category.
  lemma CategoryMiss(c: Category, mass: real, totalWt: real, unclamped: bool)
    requires c.mol.Some? ==> c.mol.value.weight > 0.0 && c.mol.value.atoms >= 1
    requires totalWt > 0.0 && mass >= 0.0 && c.wt >= 0.0
    requires unclamped && c.mol.Some? ==> Round(Ideal(c, mass)) >= 1
    ensures Within(AtomsOf(c, InitialCount(c, mass)) as real - AtomsIn(mass, totalWt, AtomsPerMass(c, totalWt)),
                   AtomsPerMolecule(c), unclamped)
  {
    hide AtomsPerMass, AtomsIn, Numeric.Round, Ideal, Within;
    if c.mol.Some? {
      IdealShare(c, mass, totalWt);
      IdealNonNegative(c, mass);
      RoundError(Ideal(c, mass));
      MissCore(InitialCount(c, mass), Ideal(c, mass), c.mol.value.atoms, unclamped,
               Ideal(c, mass) * c.mol.value.atoms as real);
    } else {
      NoMiss(c, mass, totalWt, unclamped);
    }
  }

  lemma NoMiss(c: Category, mass: real, totalWt: real, unclamped: bool)
    requires c.mol.None? && totalWt > 0.0
    ensures Within(0.0 - AtomsIn(mass, totalWt, AtomsPerMass(c, totalWt)), AtomsPerMolecule(c), unclamped)
  {
    AtomsInSum(mass, totalWt, 0.0, 0.0);
  }

  lemma IdealNonNegative(c: Category, mass: real)
    requires c.mol.Some? && c.mol.value.weight > 0.0 && mass >= 0.0 && c.wt >= 0.0
    ensures Ideal(c, mass) >= 0.0
  {
    assert mass * (c.wt / 100.0) >= 0.0;
  }

  lemma MissCore(count: int, ideal: real, atoms: nat, unclamped: bool, idealAtoms: real)
    requires ideal >= 0.0 && idealAtoms == ideal * atoms as real
    requires count == Max(1, Round(ideal)) && AbsR(ideal - Round(ideal) as real) <= 0.5
    requires unclamped ==> Round(ideal) >= 1
    ensures Within((count * atoms) as real - idealAtoms, atoms, unclamped)
  {
    var d := count as real - ideal;
    assert AbsR(d) <= 1.0 && (unclamped ==> AbsR(d) <= 0.5);
    assert (count * atoms) as real == count as real * atoms as real;
    MissScaled(d, atoms as real, count as real, ideal, idealAtoms);
  }

  lemma MissScaled(d: real, n: real, count: real, ideal: real, idealAtoms: real)
    requires n >= 0.0 && d == count - ideal && idealAtoms == ideal * n
    ensures AbsR(d) <= 1.0 ==> AbsR(count * n - idealAtoms) <= n
    ensures AbsR(d) <= 0.5 ==> AbsR(count * n - idealAtoms) <= n / 2.0
  {
    assert count * n - idealAtoms == d * n by {
      SplitProduct(n, count, -ideal);
    }
    ScaledBound(d, n, 1.0, d * n);
    ScaledBound(d, n, 0.5, d * n);
  }

  lemma SplitProduct(x: real, y: real, z: real)
    ensures x * (y + z) == x * y + x * z
  {
  }

  lemma ScaledBound(d: real, n: real, b: real, product: real)
    requires n >= 0.0 && product == d * n
    ensures AbsR(d) <= b ==> AbsR(product) <= b * n
  {
    assert d <= b ==> d * n <= b * n;
    assert -b <= d ==> (-b) * n <= d * n;
  }

  lemma MissSnoc(cats: seq<Category>, counts: Counts, totalWt: real)
    requires WellFormed(cats) && totalWt > 0.0 && |counts| == |cats| && cats != []
    ensures var k := |cats| - 1;
      && AtomTotal(cats, counts) as real
          == AtomTotal(cats[..k], counts[..k]) as real + AtomsOf(cats[k], counts[k]) as real
      && AvgAtomsPerMass(cats, totalWt) == AvgAtomsPerMass(cats[..k], totalWt) + AtomsPerMass(cats[k], totalWt)
      && AtomCountSum(cats) == AtomCountSum(cats[..k]) + AtomsPerMolecule(cats[k])
  {
    hide AtomsPerMass, AtomsOf;
  }

  lemma {:induction false} TotalMiss(cats: seq<Category>, counts: Counts, mass: real, totalWt: real, unclamped: bool)
    requires WellFormed(cats) && totalWt > 0.0 && mass >= 0.0 && |counts| == |cats|
    requires forall i :: 0 <= i < |cats| ==> counts[i] == InitialCount(cats[i], mass)
    requires unclamped ==> Unclamped(cats, mass)
    ensures Within(AtomTotal(cats, counts) as real - AtomsIn(mass, totalWt, AvgAtomsPerMass(cats, totalWt)),
                   AtomCountSum(cats), unclamped)
  {
    AtomsInSum(mass, totalWt, 0.0, 0.0);
    if cats != [] {
      hide AtomsPerMass, InitialCount, AtomsOf, Ideal, AtomsIn, AtomTotal, AvgAtomsPerMass, AtomCountSum, Numeric.Round;
      var k := |cats| - 1;
      TotalMiss(cats[..k], counts[..k], mass, totalWt, unclamped);
      CategoryMiss(cats[k], mass, totalWt, unclamped);
      MissSnoc(cats, counts, totalWt);
      AtomsInSum(mass, totalWt, AvgAtomsPerMass(cats[..k], totalWt), AtomsPerMass(cats[k], totalWt));
    }
  }

  // The share of the atom target that the percentages ask for: all of it when they add up to 100.
  function TargetAtoms(cats: seq<Category>, target: int): real {
    target as real * TotalWt(cats) / 100.0
  }

  /** The initial allocation misses target * W / 100 atoms, W being the total percentage, by at most one molecule of
      every category, and by at most half of that when no category is raised to one molecule. */
  lemma AllocationBound(cats: seq<Category>, target: nat)
    requires WellFormed(cats) && TotalWt(cats) != 0.0 && !NothingAvailable(cats)
    ensures var miss := AtomTotal(cats, InitialCounts(cats, target)) as real - TargetAtoms(cats, target);
      && AbsR(miss) <= AtomCountSum(cats) as real
      && (Unclamped(cats, EstimatedMass(cats, target)) ==> AbsR(miss) <= AtomCountSum(cats) as real / 2.0)
  {
    TotalNonNegative(cats);
    AverageZeroIff(cats, TotalWt(cats));
    hide AtomTotal, AvgAtomsPerMass, Unclamped, AtomCountSum, TotalWt, InitialCount, AtomsIn;
    var w := TotalWt(cats);
    var mass := EstimatedMass(cats, target);
    MassTimesAverage(cats, target, AvgAtomsPerMass(cats, w), mass);
    hide TargetAtoms;
    TotalMiss(cats, InitialCounts(cats, target), mass, w, Unclamped(cats, mass));
  }

  lemma MassTimesAverage(cats: seq<Category>, target: nat, avg: real, mass: real)
    requires avg > 0.0 && mass == target as real / avg
    ensures AtomsIn(mass, TotalWt(cats), avg) == TargetAtoms(cats, target) && mass >= 0.0
  {
    var w := TotalWt(cats);
    assert mass * avg == target as real;
    assert mass * w / 100.0 * avg == (mass * avg) * w / 100.0;
  }

  // ---------------------------------------------------------------- hill climbing

  // Every available category keeps at least one molecule.
  ghost predicate Valid(cats: seq<Category>, v: Counts) {
    |v| == |cats| && forall i :: 0 <= i < |cats| && cats[i].mol.Some? ==> v[i] >= 1
  }

  ghost predicate SameAbsent(cats: seq<Category>, v: Counts, w: Counts) {
    |v| == |w| == |cats| && forall i :: 0 <= i < |cats| && cats[i].mol.None? ==> v[i] == w[i]
  }

  predicate InWindow(cats: seq<Category>, v: Counts, minAtoms: int, maxAtoms: int)
    requires |v| == |cats|
  {
    minAtoms <= AtomTotal(cats, v) <= maxAtoms
  }

  // One molecule more or less of category c, but never none.
  function Neighbour(v: Counts, c: nat, delta: int): Counts
    requires c < |v|
  {
    v[c := Max(1, v[c] + delta)]
  }

  // The change of category c by delta stays in the window and lowers the error below e.
  predicate Improves(cats: seq<Category>, v: Counts, c: nat, delta: int, minAtoms: int, maxAtoms: int, e: real)
    requires c < |v| == |cats|
  {
    var w := Neighbour(v, c, delta);
    InWindow(cats, w, minAtoms, maxAtoms) && L1Error(cats, w) < e
  }

  /** No single molecule more or less inside the window lowers the error. */
  ghost predicate LocallyOptimal(cats: seq<Category>, v: Counts, minAtoms: int, maxAtoms: int)
    requires |v| == |cats|
  {
    forall c, delta :: 0 <= c < |cats| && cats[c].mol.Some? && delta in {-1, 1} ==>
      !Improves(cats, v, c, delta, minAtoms, maxAtoms, L1Error(cats, v))
  }

  // The counts with another number of molecules of category c.
  function Changed(v: Counts, c: nat, k: int): (w: Counts)
    requires c < |v|
    ensures |w| == |v|
  {
    v[c := k]
  }

  /** What a local optimum means: one molecule more or less of a category, never none, inside the window, does not lower
      the error. */
  lemma LocalOptimumMeans(cats: seq<Category>, v: Counts, minAtoms: int, maxAtoms: int)
    requires Valid(cats, v)
    ensures LocallyOptimal(cats, v, minAtoms, maxAtoms) <==>
      forall c: nat, k: int ::
        c < |cats| && cats[c].mol.Some? && k >= 1 && (k == v[c] - 1 || k == v[c] + 1)
          && minAtoms <= AtomTotal(cats, Changed(v, c, k)) <= maxAtoms ==>
        L1Error(cats, v) <= L1Error(cats, Changed(v, c, k))
  {
    hide L1Error, AtomTotal;
    if LocallyOptimal(cats, v, minAtoms, maxAtoms) {
      forall c: nat, k: int | c < |cats| && cats[c].mol.Some? && k >= 1 && (k == v[c] - 1 || k == v[c] + 1)
                              && minAtoms <= AtomTotal(cats, Changed(v, c, k)) <= maxAtoms
        ensures L1Error(cats, v) <= L1Error(cats, Changed(v, c, k))
      {
        assert !Improves(cats, v, c, k - v[c], minAtoms, maxAtoms, L1Error(cats, v));
        assert Neighbour(v, c, k - v[c]) == Changed(v, c, k);
      }
    } else {
      var c, delta :| 0 <= c < |cats| && cats[c].mol.Some? && delta in {-1, 1}
        && Improves(cats, v, c, delta, minAtoms, maxAtoms, L1Error(cats, v));
      var k := Max(1, v[c] + delta);
      assert Neighbour(v, c, delta) == Changed(v, c, k);
      assert v[c := v[c]] == v;
      assert k == v[c] - 1 || k == v[c] + 1;
    }
  }

  // One change of one category, kept when it improves.
  function Tried(cats: seq<Category>, v: Counts, c: nat, delta: int, minAtoms: int, maxAtoms: int): (w: Counts)
    requires c < |v| == |cats|
    ensures |w| == |v|
  {
    if cats[c].mol.Some? && Improves(cats, v, c, delta, minAtoms, maxAtoms, L1Error(cats, v)) then
      Neighbour(v, c, delta)
    else
      v
  }

  /** What a trial does: one molecule down (but never none) or up, kept exactly when the atoms stay within the window
      and the error falls. */
  lemma TrialMeans(cats: seq<Category>, v: Counts, c: nat, minAtoms: int, maxAtoms: int)
    requires c < |v| == |cats| && v[c] >= 1 && cats[c].mol.Some?
    ensures var fewer := Changed(v, c, if v[c] == 1 then 1 else v[c] - 1);
      Tried(cats, v, c, -1, minAtoms, maxAtoms) == if IsBetter(cats, v, fewer, minAtoms, maxAtoms) then fewer else v
    ensures var more := Changed(v, c, v[c] + 1);
      Tried(cats, v, c, 1, minAtoms, maxAtoms) == if IsBetter(cats, v, more, minAtoms, maxAtoms) then more else v
  {
    hide L1Error, AtomTotal;
  }

  predicate IsBetter(cats: seq<Category>, v: Counts, w: Counts, minAtoms: int, maxAtoms: int)
    requires |v| == |w| == |cats|
  {
    minAtoms <= AtomTotal(cats, w) <= maxAtoms && L1Error(cats, w) < L1Error(cats, v)
  }

  // The first n categories, each tried one molecule down and then one molecule up, on what the ones before it left.
  function PassUpTo(cats: seq<Category>, v: Counts, n: nat, minAtoms: int, maxAtoms: int): (w: Counts)
    requires n <= |v| == |cats|
    ensures |w| == |v|
  {
    if n == 0 then v
    else
      var before := PassUpTo(cats, v, n - 1, minAtoms, maxAtoms);
      Tried(cats, Tried(cats, before, n - 1, -1, minAtoms, maxAtoms), n - 1, 1, minAtoms, maxAtoms)
  }

  function AfterPasses(cats: seq<Category>, v: Counts, n: nat, minAtoms: int, maxAtoms: int): (w: Counts)
    requires |v| == |cats|
    ensures |w| == |v|
  {
    if n == 0 then v
    else PassUpTo(cats, AfterPasses(cats, v, n - 1, minAtoms, maxAtoms), |cats|, minAtoms, maxAtoms)
  }

  // Once a pass changes nothing, no later pass does.
  lemma {:induction false} PassesSettle(cats: seq<Category>, v: Counts, k: nat, n: nat, minAtoms: int, maxAtoms: int)
    requires |v| == |cats| && k <= n
    requires var w := AfterPasses(cats, v, k, minAtoms, maxAtoms);
      PassUpTo(cats, w, |cats|, minAtoms, maxAtoms) == w
    ensures AfterPasses(cats, v, n, minAtoms, maxAtoms) == AfterPasses(cats, v, k, minAtoms, maxAtoms)
  {
    hide PassUpTo;
    if k < n {
      PassesSettle(cats, v, k, n - 1, minAtoms, maxAtoms);
    }
  }

  // One round over all categories, each tried one molecule down and one molecule up.
  method ClimbPass(cats: seq<Category>, start: Counts, minAtoms: int, maxAtoms: int)
    returns (best: Counts, improved: bool)
    requires Valid(cats, start)
    ensures Valid(cats, best) && SameAbsent(cats, start, best)
    ensures improved ==> InWindow(cats, best, minAtoms, maxAtoms) && L1Error(cats, best) < L1Error(cats, start)
    ensures !improved ==> best == start && LocallyOptimal(cats, start, minAtoms, maxAtoms)
    ensures best == PassUpTo(cats, start, |cats|, minAtoms, maxAtoms)
  {
    hide L1Error, InWindow, PassUpTo, Tried;
    best, improved := start, false;
    PassSteps(cats, start, 0, minAtoms, maxAtoms);
    var bestError := L1Error(cats, start);
    for c := 0 to |cats|
      invariant Valid(cats, best) && SameAbsent(cats, start, best) && bestError == L1Error(cats, best)
      invariant improved ==> InWindow(cats, best, minAtoms, maxAtoms) && bestError < L1Error(cats, start)
      invariant !improved ==>
        best == start && forall d, delta :: 0 <= d < c && cats[d].mol.Some? && delta in {-1, 1} ==>
        !Improves(cats, start, d, delta, minAtoms, maxAtoms, bestError)
      invariant best == PassUpTo(cats, start, c, minAtoms, maxAtoms)
    {
      ghost var before := best;
      PassSteps(cats, start, c + 1, minAtoms, maxAtoms);
      TriedIs(cats, before, c, -1, minAtoms, maxAtoms);
      TriedIs(cats, Tried(cats, before, c, -1, minAtoms, maxAtoms), c, 1, minAtoms, maxAtoms);
      if cats[c].mol.Some? {
        var delta := -1;
        while delta <= 1
          invariant delta in {-1, 1, 3}
          invariant Valid(cats, best) && SameAbsent(cats, start, best) && bestError == L1Error(cats, best)
          invariant improved ==> InWindow(cats, best, minAtoms, maxAtoms) && bestError < L1Error(cats, start)
          invariant !improved ==>
            best == start && forall d, delta' :: 0 <= d <= c && cats[d].mol.Some? && delta' in {-1, 1} ==>
            d < c || delta' < delta ==> !Improves(cats, start, d, delta', minAtoms, maxAtoms, bestError)
          invariant delta == -1 ==> best == before
          invariant delta == 1 ==> best == Tried(cats, before, c, -1, minAtoms, maxAtoms)
          invariant delta == 3 ==> best == PassUpTo(cats, start, c + 1, minAtoms, maxAtoms)
          decreases 3 - delta
        {
          var test := Neighbour(best, c, delta);
          if InWindow(cats, test, minAtoms, maxAtoms) {
            var error := L1Error(cats, test);
            if error < bestError {
              best, bestError, improved := test, error, true;
            }
          }
          delta := delta + 2;
        }
      }
    }
  }

  lemma PassSteps(cats: seq<Category>, v: Counts, n: nat, minAtoms: int, maxAtoms: int)
    requires n <= |v| == |cats|
    ensures n == 0 ==> PassUpTo(cats, v, n, minAtoms, maxAtoms) == v
    ensures n > 0 ==>
      var before := PassUpTo(cats, v, n - 1, minAtoms, maxAtoms);
      PassUpTo(cats, v, n, minAtoms, maxAtoms)
        == Tried(cats, Tried(cats, before, n - 1, -1, minAtoms, maxAtoms), n - 1, 1, minAtoms, maxAtoms)
  {
    hide Tried;
  }

  lemma TriedIs(cats: seq<Category>, v: Counts, c: nat, delta: int, minAtoms: int, maxAtoms: int)
    requires c < |v| == |cats|
    ensures var test := Neighbour(v, c, delta);
      Tried(cats, v, c, delta, minAtoms, maxAtoms)
        == if cats[c].mol.Some? && InWindow(cats, test, minAtoms, maxAtoms) && L1Error(cats, test) < L1Error(cats, v)
           then test else v
  {
    hide L1Error, InWindow, Neighbour;
  }

  const MAX_PASSES := 50

  // Allocations of strictly smaller and smaller error, inside the window from the second on.
  ghost predicate IsClimb(cats: seq<Category>, trail: seq<Counts>, minAtoms: int, maxAtoms: int) {
    && (forall i :: 0 <= i < |trail| ==> |trail[i]| == |cats|)
    && forall i :: 0 < i < |trail| ==>
         InWindow(cats, trail[i], minAtoms, maxAtoms) && L1Error(cats, trail[i]) < L1Error(cats, trail[i - 1])
  }

  /** A climb of at most fifty improvements, one for each pass, that stops earlier only where no single change inside
      the window improves the result. */
  ghost predicate IsTuning(cats: seq<Category>, trail: seq<Counts>, start: Counts, end: Counts, minAtoms: int,
                           maxAtoms: int)
    requires |end| == |cats|
  {
    && IsClimb(cats, trail, minAtoms, maxAtoms) && 1 <= |trail| <= MAX_PASSES + 1
    && trail[0] == start && trail[|trail| - 1] == end
    && (|trail| <= MAX_PASSES ==> LocallyOptimal(cats, end, minAtoms, maxAtoms))
    && |start| == |cats| && end == AfterPasses(cats, start, 50, minAtoms, maxAtoms)
  }

  /** At most fifty passes.  The result is the input or a strictly better allocation inside the window. */
  method FineTune(cats: seq<Category>, counts: Counts, minAtoms: int, maxAtoms: int)
    returns (best: Counts, ghost trail: seq<Counts>)
    requires Valid(cats, counts)
    ensures Valid(cats, best) && SameAbsent(cats, counts, best)
    ensures best == counts || (InWindow(cats, best, minAtoms, maxAtoms) && L1Error(cats, best) < L1Error(cats, counts))
    ensures IsTuning(cats, trail, counts, best, minAtoms, maxAtoms)
  {
    hide L1Error, InWindow, LocallyOptimal, PassUpTo, AfterPasses;
    best, trail := counts, [counts];
    PassesFrom(cats, counts, 0, minAtoms, maxAtoms);
    var improved, passes := true, 0;
    while improved && passes < MAX_PASSES
      invariant Valid(cats, best) && SameAbsent(cats, counts, best)
      invariant best == counts
        || (InWindow(cats, best, minAtoms, maxAtoms) && L1Error(cats, best) < L1Error(cats, counts))
      invariant !improved ==> LocallyOptimal(cats, best, minAtoms, maxAtoms)
      invariant 0 <= passes <= MAX_PASSES && (improved || passes > 0)
      invariant |trail| == 1 + (if improved then passes else passes - 1)
      invariant IsClimb(cats, trail, minAtoms, maxAtoms) && trail[0] == counts && trail[|trail| - 1] == best
      invariant best == AfterPasses(cats, counts, passes, minAtoms, maxAtoms)
      invariant !improved ==> PassUpTo(cats, best, |cats|, minAtoms, maxAtoms) == best
      decreases MAX_PASSES - passes
    {
      PassesFrom(cats, counts, passes + 1, minAtoms, maxAtoms);
      best, improved := ClimbPass(cats, best, minAtoms, maxAtoms);
      passes := passes + 1;
      if improved {
        trail := trail + [best];
      }
    }
    if !improved {
      PassesSettle(cats, counts, passes, MAX_PASSES, minAtoms, maxAtoms);
    }
  }

  lemma PassesFrom(cats: seq<Category>, v: Counts, n: nat, minAtoms: int, maxAtoms: int)
    requires |v| == |cats|
    ensures n == 0 ==> AfterPasses(cats, v, n, minAtoms, maxAtoms) == v
    ensures n > 0 ==>
      AfterPasses(cats, v, n, minAtoms, maxAtoms)
        == PassUpTo(cats, AfterPasses(cats, v, n - 1, minAtoms, maxAtoms), |cats|, minAtoms, maxAtoms)
  {
    hide PassUpTo;
  }

  // ---------------------------------------------------------------- termination without the cap

  function UpTo(hi: int): (s: set<int>)
    ensures forall x :: x in s <==> 1 <= x <= hi
    decreases Max(0, hi)
  {
    if hi < 1 then {} else UpTo(hi - 1) + {hi}
  }

  // Counts a category can take inside a window with the given upper end.
  function Range(c: Category, fixed: int, hi: int): set<int> {
    if c.mol.None? then {fixed} else UpTo(hi)
  }

  // All count vectors inside the window: a finite set.
  ghost function Box(cats: seq<Category>, fixed: Counts, hi: int): set<Counts>
    requires |fixed| == |cats|
  {
    if cats == [] then {[]}
    else
      var k := |cats| - 1;
      set v, x | v in Box(cats[..k], fixed[..k], hi) && x in Range(cats[k], fixed[k], hi) :: v + [x]
  }

  lemma {:induction false} BoxHolds(cats: seq<Category>, fixed: Counts, hi: int, v: Counts)
    requires |fixed| == |v| == |cats|
    requires forall i :: 0 <= i < |cats| ==> v[i] in Range(cats[i], fixed[i], hi)
    ensures v in Box(cats, fixed, hi)
  {
    if cats != [] {
      var k := |cats| - 1;
      BoxHolds(cats[..k], fixed[..k], hi, v[..k]);
      assert v == v[..k] + [v[k]];
    }
  }

  lemma {:induction false} CountAtMostAtoms(cats: seq<Category>, v: Counts, i: nat)
    requires WellFormed(cats) && Valid(cats, v) && i < |cats| && cats[i].mol.Some?
    ensures v[i] <= AtomTotal(cats, v)
  {
    var k := |cats| - 1;
    AtomsNonNegative(cats[..k], v[..k]);
    if cats[k].mol.Some? {
      CountTimesAtoms(v[k], cats[k].mol.value.atoms);
    }
    if i < k {
      CountAtMostAtoms(cats[..k], v[..k], i);
    }
  }

  lemma {:induction false} AtomsNonNegative(cats: seq<Category>, v: Counts)
    requires WellFormed(cats) && Valid(cats, v)
    ensures AtomTotal(cats, v) >= 0
  {
    if cats != [] {
      var k := |cats| - 1;
      AtomsNonNegative(cats[..k], v[..k]);
      if cats[k].mol.Some? {
        CountTimesAtoms(v[k], cats[k].mol.value.atoms);
      }
    }
  }

  lemma CountTimesAtoms(count: int, atoms: int)
    requires count >= 1 && atoms >= 1
    ensures count * atoms >= count
  {
  }

  lemma WindowInBox(cats: seq<Category>, fixed: Counts, minAtoms: int, maxAtoms: int, v: Counts)
    requires WellFormed(cats) && Valid(cats, v) && SameAbsent(cats, fixed, v) && InWindow(cats, v, minAtoms, maxAtoms)
    ensures v in Box(cats, fixed, maxAtoms)
  {
    forall i | 0 <= i < |cats|
      ensures v[i] in Range(cats[i], fixed[i], maxAtoms)
    {
      if cats[i].mol.Some? {
        CountAtMostAtoms(cats, v, i);
      }
    }
    BoxHolds(cats, fixed, maxAtoms, v);
  }

  // The vectors of the box that are better than v.
  ghost function BetterThan(cats: seq<Category>, box: set<Counts>, v: Counts): set<Counts>
    requires |v| == |cats|
  {
    set w | w in box && |w| == |cats| && L1Error(cats, w) < L1Error(cats, v)
  }

  lemma BetterShrinks(cats: seq<Category>, box: set<Counts>, v: Counts, w: Counts)
    requires |v| == |w| == |cats| && w in box && L1Error(cats, w) < L1Error(cats, v)
    ensures |BetterThan(cats, box, w)| < |BetterThan(cats, box, v)|
  {
    hide L1Error;
    assert w in BetterThan(cats, box, v) && w !in BetterThan(cats, box, w);
    assert BetterThan(cats, box, w) <= BetterThan(cats, box, v) - {w};
    SubsetCard(BetterThan(cats, box, w), BetterThan(cats, box, v) - {w});
  }

  /** The same climb with the cap removed still ends, and then always in a local optimum. */
  method FineTuneUncapped(cats: seq<Category>, counts: Counts, minAtoms: int, maxAtoms: int) returns (best: Counts)
    requires WellFormed(cats) && Valid(cats, counts)
    ensures Valid(cats, best) && SameAbsent(cats, counts, best)
    ensures best == counts || (InWindow(cats, best, minAtoms, maxAtoms) && L1Error(cats, best) < L1Error(cats, counts))
    ensures LocallyOptimal(cats, best, minAtoms, maxAtoms)
  {
    hide L1Error, InWindow, LocallyOptimal, Box, BetterThan;
    best := counts;
    ghost var box := Box(cats, counts, maxAtoms);
    var improved := true;
    while improved
      invariant Valid(cats, best) && SameAbsent(cats, counts, best)
      invariant best == counts
        || (InWindow(cats, best, minAtoms, maxAtoms) && L1Error(cats, best) < L1Error(cats, counts))
      invariant !improved ==> LocallyOptimal(cats, best, minAtoms, maxAtoms)
      decreases |BetterThan(cats, box, best)|, improved
    {
      ghost var before := best;
      best, improved := ClimbPass(cats, best, minAtoms, maxAtoms);
      if improved {
        WindowInBox(cats, counts, minAtoms, maxAtoms, best);
        BetterShrinks(cats, box, before, best);
      }
    }
  }

  // ---------------------------------------------------------------- the scan

  // The stride of the scan over atom targets.
  function Stride(minAtoms: int, maxAtoms: int): int {
    Max(1, (maxAtoms - minAtoms) / 20)
  }

  function Scanned(k: nat, minAtoms: int, maxAtoms: int): int {
    minAtoms + k * Stride(minAtoms, maxAtoms)
  }

  ghost predicate IsScanned(t: int, minAtoms: int, maxAtoms: int) {
    t <= maxAtoms && exists k: nat :: t == Scanned(k, minAtoms, maxAtoms)
  }

  /** The targets of the scan: from the lower end in steps of a twentieth of the window, and in single steps when that
      is less than one. */
  lemma ScannedTargets(lo: int, hi: int, t: int)
    requires lo <= hi
    ensures var step := if hi - lo < 20 then 1 else (hi - lo) / 20;
      IsScanned(t, lo, hi) <==> lo <= t <= hi && (t - lo) % step == 0
  {
    FirstScanned(lo, hi);
    var step := if hi - lo < 20 then 1 else (hi - lo) / 20;
    assert Stride(lo, hi) == step;
    hide Stride;
    if lo <= t && (t - lo) % step == 0 {
      var k: nat := (t - lo) / step;
      assert t == Scanned(k, lo, hi);
    }
    if IsScanned(t, lo, hi) {
      var k: nat :| t == Scanned(k, lo, hi);
      MultipleRemainder(k, step);
    }
  }

  lemma MultipleRemainder(k: nat, d: int)
    requires d >= 1
    ensures (k * d) % d == 0
  {
    var q, r := (k * d) / d, (k * d) % d;
    assert k * d == q * d + r;
    assert (k - q) * d == r;
    assert k - q >= 1 ==> (k - q) * d >= d;
    assert k - q <= -1 ==> (k - q) * d <= -d;
  }

  lemma InitialIsValid(cats: seq<Category>, target: int)
    requires Weighted(cats) && TotalWt(cats) != 0.0 && !NothingAvailable(cats)
    ensures Valid(cats, InitialCounts(cats, target))
  {
    hide TotalWt, AvgAtomsPerMass;
  }

  // The targets before the next one are the targets up to this one.
  lemma NextScanned(k: nat, lo: int, hi: int)
    ensures Scanned(k + 1, lo, hi) == Scanned(k, lo, hi) + Stride(lo, hi)
    ensures forall u :: IsScanned(u, lo, hi) && u < Scanned(k + 1, lo, hi) ==> u <= Scanned(k, lo, hi)
  {
    var d := Stride(lo, hi);
    assert d >= 1;
    hide Stride;
    forall u | IsScanned(u, lo, hi) && u < Scanned(k + 1, lo, hi)
      ensures u <= Scanned(k, lo, hi)
    {
      var j: nat :| u == Scanned(j, lo, hi);
      if j >= k + 1 {
        MoreSteps(k + 1, j, d);
      } else {
        MoreSteps(j, k, d);
      }
    }
  }

  lemma MoreSteps(j: nat, k: nat, d: int)
    requires j <= k && d >= 1
    ensures j * d <= k * d
  {
    assert k * d - j * d == (k - j) * d;
  }

  lemma FirstScanned(lo: int, hi: int)
    ensures Stride(lo, hi) >= 1 && Scanned(0, lo, hi) == lo
    ensures forall u :: IsScanned(u, lo, hi) ==> lo <= u
  {
    forall u | IsScanned(u, lo, hi) ensures lo <= u {
      var j: nat :| u == Scanned(j, lo, hi);
      assert j * Stride(lo, hi) >= 0;
    }
  }

  /** The first of the scanned targets whose allocation has the least error. */
  ghost predicate IsFirstLeast(cats: seq<Category>, from: int, lo: int, hi: int)
    requires Weighted(cats) && TotalWt(cats) != 0.0 && !NothingAvailable(cats)
  {
    && IsScanned(from, lo, hi)
    && (forall t :: IsScanned(t, lo, hi) ==>
          L1Error(cats, InitialCounts(cats, from)) <= L1Error(cats, InitialCounts(cats, t)))
    && forall t :: IsScanned(t, lo, hi) && t < from ==>
         L1Error(cats, InitialCounts(cats, from)) < L1Error(cats, InitialCounts(cats, t))
  }

  /** The best scanned allocation, fine-tuned: its error is at most that of every scanned allocation, and the climb
      starts from one of them. */
  method OptimizeAllocation(cats: seq<Category>, target: int, tolerance: real)
    returns (res: Option<Counts>, ghost from: int, ghost trail: seq<Counts>)
    requires Weighted(cats) && TotalWt(cats) != 0.0 && !NothingAvailable(cats)
    ensures var lo, hi := Trunc(target as real * (1.0 - tolerance)), Trunc(target as real * (1.0 + tolerance));
      && (res.None? <==> lo > hi)
      && (res.Some? ==>
            && Valid(cats, res.value)
            && (forall t :: IsScanned(t, lo, hi) ==> L1Error(cats, res.value) <= L1Error(cats, InitialCounts(cats, t)))
            && IsFirstLeast(cats, from, lo, hi)
            && IsTuning(cats, trail, InitialCounts(cats, from), res.value, lo, hi))
  {
    hide L1Error, InWindow, LocallyOptimal, IsTuning, AvgAtomsPerMass, TotalWt, InitialCounts, Stride, Scanned;
    var lo, hi := Trunc(target as real * (1.0 - tolerance)), Trunc(target as real * (1.0 + tolerance));
    var best: Option<Counts>, bestError := None, 0.0;
    ghost var k: nat := 0;
    from, trail := lo, [];
    var t := lo;
    FirstScanned(lo, hi);
    while t <= hi
      invariant t == Scanned(k, lo, hi)
      invariant best.None? <==> t == lo
      invariant best.None? ==> k == 0
      invariant best.Some? ==>
        && lo < t && IsScanned(from, lo, hi) && best.value == InitialCounts(cats, from)
            && bestError == L1Error(cats, best.value)
        && (forall u :: IsScanned(u, lo, hi) && u < t ==> bestError <= L1Error(cats, InitialCounts(cats, u)))
        && forall u :: IsScanned(u, lo, hi) && u < from ==> bestError < L1Error(cats, InitialCounts(cats, u))
      decreases hi - t
    {
      var allocation := InitialAllocation(cats, t);
      var (counts, _) := allocation.value;
      var error := L1Error(cats, counts);
      assert IsScanned(t, lo, hi);
      NextScanned(k, lo, hi);
      if best.None? || error < bestError {
        best, bestError := Some(counts), error;
        from := t;
      }
      t := t + Stride(lo, hi);
      k := k + 1;
    }
    if best.None? {
      return None, from, trail;
    }
    InitialIsValid(cats, from);
    var tuned;
    tuned, trail := FineTune(cats, best.value, lo, hi);
    res := Some(tuned);
  }

  // ---------------------------------------------------------------- the whole calculation

  datatype CalculationError = ZeroTotal | NoMolecules | MissingCategory(name: string)

  datatype Composition = Composition(counts: Counts, error: real, totalAtoms: int, totalMass: real)

  // The first category that has no molecule.
  function FirstMissing(cats: seq<Category>): Option<string> {
    if cats == [] then None
    else if cats[0].mol.None? then Some(cats[0].name)
    else FirstMissing(cats[1..])
  }

  // How the calculation ends without a result.
  function Failing(target: seq<Category>): Option<CalculationError>
    requires Weighted(target)
  {
    if target == [] then Some(NoMolecules)
    else if TotalWt(target) == 0.0 then Some(ZeroTotal)
    else
      NormalizedWeighted(target);
      if NothingAvailable(Normalized(target)) then Some(NoMolecules)
      else
        var missing := FirstMissing(target);
        if missing.Some? then Some(MissingCategory(missing.value)) else None
  }

  lemma NormalizedWeighted(cats: seq<Category>)
    requires Weighted(cats) && TotalWt(cats) != 0.0
    ensures Weighted(Normalized(cats)) && TotalWt(Normalized(cats)) != 0.0
    ensures forall i :: 0 <= i < |cats| ==>
      var c, n := cats[i], Normalized(cats)[i];
      n.name == c.name && n.mol == c.mol && (n.wt == 0.0 <==> c.wt == 0.0)
      && (TotalWt(cats) > 0.0 && c.wt >= 0.0 ==> n.wt >= 0.0)
  {
    hide TotalWt, Normalized;
    NormalizedTotal(cats);
    forall i | 0 <= i < |cats|
      ensures var c, n := cats[i], Normalized(cats)[i];
        n.name == c.name && n.mol == c.mol && (n.wt == 0.0 <==> c.wt == 0.0)
        && (TotalWt(cats) > 0.0 && c.wt >= 0.0 ==> n.wt >= 0.0)
    {
      NormalizedAt(cats, i);
      ScaledShare(cats[i].wt, TotalWt(cats));
    }
  }

  /** Normalising scales the percentages to a total of exactly 100, unless it is within 0.01 of that already. */
  lemma NormalizedAt(cats: seq<Category>, i: nat)
    requires TotalWt(cats) != 0.0 && i < |cats|
    ensures var c, n := cats[i], Normalized(cats)[i];
      && n.name == c.name && n.mol == c.mol
      && (AbsR(TotalWt(cats) - 100.0) < 0.01 ==> n.wt == c.wt)
      && (AbsR(TotalWt(cats) - 100.0) >= 0.01 ==>
            n.wt == c.wt * 100.0 / TotalWt(cats) && TotalWt(Normalized(cats)) == 100.0)
  {
    hide TotalWt;
    if AbsR(TotalWt(cats) - 100.0) >= 0.01 {
      ScaledTotal(cats, Normalized(cats), TotalWt(cats));
      hide Normalized;
      PercentOfAll(TotalWt(cats));
    }
  }

  lemma ScaledShare(wt: real, total: real)
    requires total != 0.0
    ensures wt * 100.0 / total == 0.0 <==> wt == 0.0
    ensures total > 0.0 && wt >= 0.0 ==> wt * 100.0 / total >= 0.0
  {
    var q := wt * 100.0 / total;
    assert q * total == wt * 100.0;
  }

  lemma {:induction false} FirstMissingIff(cats: seq<Category>)
    ensures FirstMissing(cats) == None <==> forall i :: 0 <= i < |cats| ==> cats[i].mol.Some?
    ensures FirstMissing(cats).Some? ==>
      exists i :: 0 <= i < |cats| && cats[i].mol.None? && cats[i].name == FirstMissing(cats).value
        && forall j :: 0 <= j < i ==> cats[j].mol.Some?
  {
    if cats != [] && cats[0].mol.Some? {
      FirstMissingIff(cats[1..]);
      if FirstMissing(cats[1..]).Some? {
        var i :| 0 <= i < |cats[1..]| && cats[1..][i].mol.None? && cats[1..][i].name == FirstMissing(cats[1..]).value
          && forall j :: 0 <= j < i ==> cats[1..][j].mol.Some?;
        assert cats[i + 1] == cats[1..][i];
        forall j | 0 <= j < i + 1 ensures cats[j].mol.Some? {
          assert j > 0 ==> cats[j] == cats[1..][j - 1];
        }
      } else {
        forall i | 0 <= i < |cats| ensures cats[i].mol.Some? {
          assert i > 0 ==> cats[i] == cats[1..][i - 1];
        }
      }
    }
  }

  /** For shares: a result is returned if and only if some category has a share and every category has a molecule. A
      single category without a molecule is enough to fail, whatever the others are. */
  lemma ReturnsIff(target: seq<Category>)
    requires WellFormed(target)
    ensures Failing(target) == None <==>
      (exists i :: 0 <= i < |target| && target[i].wt > 0.0) && forall i :: 0 <= i < |target| ==> target[i].mol.Some?
    ensures Failing(target) == Some(NoMolecules) <==>
      target == [] || ((exists i :: 0 <= i < |target| && target[i].wt > 0.0)
                       && forall i :: 0 <= i < |target| && target[i].mol.Some? ==> target[i].wt == 0.0)
  {
    hide TotalWt, AvgAtomsPerMass;
    TotalNonNegative(target);
    FirstMissingIff(target);
    if target != [] && TotalWt(target) != 0.0 {
      NormalizedWeighted(target);
      NothingAvailableIff(Normalized(target));
      hide NothingAvailable, Normalized;
      var cats := Normalized(target);
      assert NothingAvailable(cats)
          <==> forall i :: 0 <= i < |target| && target[i].mol.Some? ==> target[i].wt == 0.0 by {
        forall i | 0 <= i < |target|
          ensures (cats[i].mol.Some? ==> cats[i].wt == 0.0) <==> (target[i].mol.Some? ==> target[i].wt == 0.0)
        {
        }
      }
    }
  }

  /** Half of the mixture has a molecule, the other half is in a category that the molecule table lacks: the calculation
      fails on the missing category although an allocation exists. */
  lemma MissingCategoryFails(mol: Molecule)
    requires mol.weight > 0.0 && mol.atoms >= 1
    ensures var target := [Category("resin", 50.0, Some(mol)), Category("unknown", 50.0, None)];
      && TotalWt(target) == 100.0 && !NothingAvailable(target)
      && Failing(target) == Some(MissingCategory("unknown"))
  {
    var target := [Category("resin", 50.0, Some(mol)), Category("unknown", 50.0, None)];
    assert target[..1] == [target[0]] && target[..1][..0] == [];
    assert TotalWt(target[..1]) == 50.0;
    NothingAvailableIff(target);
    assert target[0].mol.Some? && target[0].wt == 50.0;
    assert target[1..] == [target[1]];
    assert FirstMissing([target[1]]) == Some("unknown");
    assert FirstMissing(target) == Some("unknown");
    assert Normalized(target) == target;
  }

  // A non-negative tolerance leaves at least the lower end of the window to scan.
  lemma WindowNotEmpty(target: nat, tolerance: real)
    requires tolerance >= 0.0
    ensures Trunc(target as real * (1.0 - tolerance)) <= Trunc(target as real * (1.0 + tolerance))
  {
    var below, above := target as real * (1.0 - tolerance), target as real * (1.0 + tolerance);
    assert above - below == target as real * (2.0 * tolerance) >= 0.0;
  }

  lemma WindowAround(target: nat, tolerance: real)
    requires tolerance >= 0.0
    ensures Trunc(target as real * (1.0 - tolerance)) <= target <= Trunc(target as real * (1.0 + tolerance))
  {
    var d := target as real * tolerance;
    assert d >= 0.0;
    assert target as real * (1.0 - tolerance) == target as real - d;
    assert target as real * (1.0 + tolerance) == target as real + d;
  }

  lemma NormalizedWellFormed(target: seq<Category>)
    requires WellFormed(target) && TotalWt(target) != 0.0
    ensures WellFormed(Normalized(target)) && AbsR(TotalWt(Normalized(target)) - 100.0) < 0.01
  {
    TotalNonNegative(target);
    NormalizedWeighted(target);
    NormalizedTotal(target);
    hide Normalized, TotalWt;
  }

  /** The atom total is within one molecule of every category, and one in ten thousand, of the window. */
  predicate NearWindow(cats: seq<Category>, atoms: int, lo: int, hi: int) {
    && Max(0, lo) as real * 0.9999 - AtomCountSum(cats) as real <= atoms as real
    && atoms as real <= hi as real * 1.0001 + AtomCountSum(cats) as real
  }

  // An allocation for a target inside the window, even a negative one, which stands for an empty box.
  lemma AllocationNearWindow(cats: seq<Category>, t: int, lo: int, hi: int)
    requires WellFormed(cats) && TotalWt(cats) != 0.0 && AbsR(TotalWt(cats) - 100.0) < 0.01 && !NothingAvailable(cats)
    requires lo <= t <= hi && 0 <= hi
    ensures NearWindow(cats, AtomTotal(cats, InitialCounts(cats, t)), lo, hi)
  {
    hide AtomTotal, AtomCountSum, TotalWt, InitialCounts, NothingAvailable;
    var total := AtomTotal(cats, InitialCounts(cats, t));
    if t >= 0 {
      AllocationBound(cats, t);
      TargetWithin(cats, t, lo, hi);
    } else {
      NegativeTarget(cats, t);
    }
  }

  lemma TargetWithin(cats: seq<Category>, t: nat, lo: int, hi: int)
    requires AbsR(TotalWt(cats) - 100.0) < 0.01 && lo <= t <= hi
    ensures Max(0, lo) as real * 0.9999 <= TargetAtoms(cats, t) <= hi as real * 1.0001
  {
    hide TotalWt;
    AboutHundredPercent(t as real, TotalWt(cats), TargetAtoms(cats, t));
  }

  lemma AboutHundredPercent(x: real, w: real, goal: real)
    requires x >= 0.0 && AbsR(w - 100.0) < 0.01 && goal == x * w / 100.0
    ensures x * 0.9999 <= goal <= x * 1.0001
  {
    assert goal * 100.0 == x * w;
    MulMono(99.99, w, x);
    MulMono(w, 100.01, x);
    assert w * x == x * w;
  }

  // A negative target leaves one molecule of each category.
  lemma NegativeTarget(cats: seq<Category>, t: int)
    requires WellFormed(cats) && TotalWt(cats) != 0.0 && !NothingAvailable(cats) && t < 0
    ensures 0 <= AtomTotal(cats, InitialCounts(cats, t)) <= AtomCountSum(cats)
  {
    var avg := AvgAtomsPerMass(cats, TotalWt(cats));
    TotalNonNegative(cats);
    AverageZeroIff(cats, TotalWt(cats));
    AverageIs(cats);
    hide AvgAtomsPerMass, TotalWt, NothingAvailable;
    var mass := EstimatedMass(cats, t);
    NegativeMass(t as real, avg, mass);
    forall i | 0 <= i < |cats| && cats[i].mol.Some?
      ensures InitialCount(cats[i], mass) == 1
    {
      SingleMolecule(cats[i], mass);
    }
    hide InitialCount;
    OneOfEach(cats, InitialCounts(cats, t));
  }

  lemma NegativeMass(t: real, avg: real, mass: real)
    requires t < 0.0 && avg > 0.0 && mass == t / avg
    ensures mass <= 0.0
  {
    assert mass * avg == t;
    assert mass > 0.0 ==> mass * avg > 0.0;
  }

  lemma SingleMolecule(c: Category, mass: real)
    requires c.mol.Some? && c.mol.value.weight > 0.0 && c.wt >= 0.0 && mass <= 0.0
    ensures InitialCount(c, mass) == 1
  {
    MulMono(mass, 0.0, c.wt / 100.0);
    NegativeShare(mass * (c.wt / 100.0), c.mol.value.weight, Ideal(c, mass));
    hide Ideal;
  }

  lemma NegativeShare(share: real, weight: real, n: real)
    requires share <= 0.0 && weight > 0.0 && n == share / weight
    ensures n <= 0.0
  {
    assert n * weight == share;
    assert n > 0.0 ==> n * weight > 0.0;
  }

  lemma {:induction false} OneOfEach(cats: seq<Category>, v: Counts)
    requires |v| == |cats| && forall i :: 0 <= i < |cats| && cats[i].mol.Some? ==> v[i] == 1
    ensures 0 <= AtomTotal(cats, v) <= AtomCountSum(cats)
  {
    if cats != [] {
      OneOfEach(cats[..|cats| - 1], v[..|cats| - 1]);
    }
  }

  lemma TuningNearWindow(cats: seq<Category>, from: int, trail: seq<Counts>, end: Counts, lo: int, hi: int)
    requires WellFormed(cats) && TotalWt(cats) != 0.0 && AbsR(TotalWt(cats) - 100.0) < 0.01 && !NothingAvailable(cats)
    requires Valid(cats, end) && 0 <= hi
    requires IsScanned(from, lo, hi) && IsTuning(cats, trail, InitialCounts(cats, from), end, lo, hi)
    ensures NearWindow(cats, AtomTotal(cats, end), lo, hi)
  {
    hide AtomTotal, AtomCountSum, TotalWt, InitialCounts, NothingAvailable, L1Error, LocallyOptimal, IsScanned;
    FirstScanned(lo, hi);
    ScannedAtMost(from, lo, hi);
    AtomsNonNegative(cats, end);
    if |trail| == 1 {
      AllocationNearWindow(cats, from, lo, hi);
    } else {
      assert InWindow(cats, trail[|trail| - 1], lo, hi);
    }
  }

  lemma ScannedAtMost(t: int, lo: int, hi: int)
    requires IsScanned(t, lo, hi)
    ensures t <= hi
  {
  }

  // The sum over all counted categories: it looks every one of them up in the molecule table.
  method CountAtoms(cats: seq<Category>, counts: Counts) returns (res: Result<int, CalculationError>)
    requires |counts| == |cats|
    ensures FirstMissing(cats) == None ==> res == Success(AtomTotal(cats, counts))
    ensures FirstMissing(cats) != None ==> res == Failure(MissingCategory(FirstMissing(cats).value))
  {
    var total := 0;
    assert cats[0..] == cats;
    for i := 0 to |cats|
      invariant total == AtomTotal(cats[..i], counts[..i])
      invariant FirstMissing(cats[i..]) == FirstMissing(cats)
    {
      assert cats[i..][1..] == cats[i + 1..];
      if cats[i].mol.None? {
        return Failure(MissingCategory(cats[i].name));
      }
      TotalsSnoc(cats, counts, i);
      total := total + AtomsOf(cats[i], counts[i]);
    }
    assert cats[..|cats|] == cats && counts[..|cats|] == counts;
    res := Success(total);
  }

  /** Fails exactly as Failing says. Otherwise the allocation has every category, and is the first allocation when its
      error is within the threshold, or else one whose error is no larger than that of every allocation of the scan,
      tuned from one of them. Either way the atom total lies near the window. */
  method Calculate(target: seq<Category>, targetAtoms: nat, tolerance: real, threshold: real)
    returns (res: Result<Composition, CalculationError>, ghost from: int, ghost trail: seq<Counts>)
    requires Weighted(target) && tolerance >= 0.0
    ensures res.Failure? <==> Failing(target) != None
    ensures res.Failure? ==> res.error == Failing(target).value
    ensures res.Success? ==>
      var cats, r := Normalized(target), res.value;
      var lo, hi := Trunc(targetAtoms as real * (1.0 - tolerance)), Trunc(targetAtoms as real * (1.0 + tolerance));
      && Weighted(cats) && TotalWt(cats) != 0.0 && !NothingAvailable(cats)
      && Valid(cats, r.counts) && r.error == L1Error(cats, r.counts)
      && r.totalAtoms == AtomTotal(cats, r.counts) && r.totalMass == MassTotal(cats, r.counts)
      && (L1Error(cats, InitialCounts(cats, targetAtoms)) <= threshold ==> r.counts == InitialCounts(cats, targetAtoms))
      && (L1Error(cats, InitialCounts(cats, targetAtoms)) > threshold ==>
            && (forall t :: IsScanned(t, lo, hi) ==> r.error <= L1Error(cats, InitialCounts(cats, t)))
            && IsFirstLeast(cats, from, lo, hi)
            && IsTuning(cats, trail, InitialCounts(cats, from), r.counts, lo, hi))
      && (WellFormed(target) ==> NearWindow(cats, r.totalAtoms, lo, hi))
  {
    hide L1Error, AvgAtomsPerMass, InitialCounts, InWindow, FirstMissing, IsTuning, NearWindow, IsScanned;
    from, trail := 0, [];
    if target == [] {
      res := Failure(NoMolecules);
      return;
    }
    if TotalWt(target) == 0.0 {
      res := Failure(ZeroTotal);
      return;
    }
    hide TotalWt;
    NormalizedWeighted(target);
    var cats := Normalized(target);
    SameMissing(target, cats);
    hide Normalized;
    var allocation := InitialAllocation(cats, targetAtoms);
    if allocation.None? {
      res := Failure(NoMolecules);
      return;
    }
    hide NothingAvailable;
    var (counts, mass) := allocation.value;
    var error := L1Error(cats, counts);
    InitialIsValid(cats, targetAtoms);
    WindowAround(targetAtoms, tolerance);
    ghost var lo, hi := Trunc(targetAtoms as real * (1.0 - tolerance)), Trunc(targetAtoms as real * (1.0 + tolerance));
    if WellFormed(target) {
      NormalizedWellFormed(target);
      AllocationNearWindow(cats, targetAtoms, lo, hi);
    }
    if error > threshold {
      WindowNotEmpty(targetAtoms, tolerance);
      var optimized;
      optimized, from, trail := OptimizeAllocation(cats, targetAtoms, tolerance);
      counts := optimized.value;
      if WellFormed(target) {
        TuningNearWindow(cats, from, trail, counts, lo, hi);
      }
      mass := MassTotal(cats, counts);
      error := L1Error(cats, counts);
    }
    var atoms := CountAtoms(cats, counts);
    if atoms.Failure? {
      res := Failure(atoms.error);
      return;
    }
    res := Success(Composition(counts, error, atoms.value, mass));
  }

  lemma {:induction false} SameMissing(cats: seq<Category>, other: seq<Category>)
    requires |cats| == |other|
    requires forall i :: 0 <= i < |cats| ==> cats[i].name == other[i].name && cats[i].mol == other[i].mol
    ensures FirstMissing(cats) == FirstMissing(other)
  {
    if cats != [] {
      SameMissing(cats[1..], other[1..]);
    }
  }
}
