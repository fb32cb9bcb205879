/** Hydroxylating a slab: hydrogens are put on surface oxygens, then atoms are relabelled in place and the charge of
    each chosen oxygen is lowered by the charge of its hydrogen. */
module Hydroxyl {
  import opened Common
  import opened Numeric
  import opened Sublattice
  import opened CrystalPlacement

  const BOND_LENGTH := 0.96

  // ---------------------------------------------------------------- the periodic distance

  // One component of the difference to an image i boxes away.
  function Shifted(d: real, l: real, i: int): real {
    d - l * i as real
  }

  // One component of the minimum-image difference.
  function MinImage(d: real, l: real): real {
    if l > 0.0 then Shifted(d, l, Round(d / l)) else d
  }

  function Square(x: real): real {
    x * x
  }

  function PeriodicD2(a: Placed, b: Placed, lx: real, ly: real): real {
    Square(MinImage(a.x - b.x, lx)) + Square(MinImage(a.y - b.y, ly)) + Square(a.z - b.z)
  }

  // Squared distance to the image of b shifted by (i, j) boxes.
  function ImageD2(a: Placed, b: Placed, lx: real, ly: real, i: int, j: int): real {
    Square(Shifted(a.x - b.x, lx, i)) + Square(Shifted(a.y - b.y, ly, j)) + Square(a.z - b.z)
  }

  lemma MinImageLeast(d: real, l: real, i: int)
    requires l > 0.0
    ensures Square(MinImage(d, l)) <= Square(Shifted(d, l, i))
  {
    RoundIsNearest(d / l, i);
    ScaledGap(d, l, Round(d / l));
  }

  // The squared gap is monotone in the distance from d / l to the integer.
  lemma ScaledGap(d: real, l: real, i: int)
    requires l > 0.0
    ensures forall j: int :: AbsR(d / l - i as real) <= AbsR(d / l - j as real) ==>
      Square(Shifted(d, l, i)) <= Square(Shifted(d, l, j))
  {
    forall j: int | AbsR(d / l - i as real) <= AbsR(d / l - j as real)
      ensures Square(Shifted(d, l, i)) <= Square(Shifted(d, l, j))
    {
      GapIs(d, l, i);
      GapIs(d, l, j);
      GapOrder(d / l - i as real, d / l - j as real, l, Shifted(d, l, i), Shifted(d, l, j));
    }
  }

  lemma GapIs(d: real, l: real, i: int)
    requires l > 0.0
    ensures Shifted(d, l, i) == (d / l - i as real) * l
  {
    assert (d / l) * l == d;
  }

  lemma GapOrder(e: real, f: real, l: real, x: real, y: real)
    requires l > 0.0 && AbsR(e) <= AbsR(f) && x == e * l && y == f * l
    ensures Square(x) <= Square(y)
  {
    assert AbsR(x) == AbsR(e) * l && AbsR(y) == AbsR(f) * l;
    MulMono(AbsR(e), AbsR(f), l);
    MulMono(AbsR(x), AbsR(y), AbsR(x));
    MulMono(AbsR(x), AbsR(y), AbsR(y));
  }

  /** The wrapped distance is the least over all periodic images, and is the distance to one of them. */
  lemma PeriodicD2IsLeast(a: Placed, b: Placed, lx: real, ly: real)
    requires lx > 0.0 && ly > 0.0
    ensures forall i: int, j: int :: PeriodicD2(a, b, lx, ly) <= ImageD2(a, b, lx, ly, i, j)
    ensures exists i: int, j: int :: PeriodicD2(a, b, lx, ly) == ImageD2(a, b, lx, ly, i, j)
  {
    hide Square, Shifted;
    forall i: int, j: int
      ensures PeriodicD2(a, b, lx, ly) <= ImageD2(a, b, lx, ly, i, j)
    {
      MinImageLeast(a.x - b.x, lx, i);
      MinImageLeast(a.y - b.y, ly, j);
    }
    assert PeriodicD2(a, b, lx, ly)
      == ImageD2(a, b, lx, ly, Round((a.x - b.x) / lx), Round((a.y - b.y) / ly));
  }

  function Views(atoms: seq<Atom>): (vs: seq<AtomView>)
    reads atoms
    ensures |vs| == |atoms|
    ensures forall k :: 0 <= k < |atoms| ==> vs[k] == atoms[k].View()
  {
    seq(|atoms|, k requires 0 <= k < |atoms| reads atoms => atoms[k].View())
  }

  /** Candidate k is strictly inside the cutoff, no candidate is nearer, and no earlier one is as near. */
  ghost predicate IsNearest(target: AtomView, cands: seq<AtomView>, lx: real, ly: real, cutoff: real, k: int) {
    && 0 <= k < |cands|
    && PeriodicD2(target.p, cands[k].p, lx, ly) < cutoff * cutoff
    && (forall j :: 0 <= j < |cands| ==>
          PeriodicD2(target.p, cands[k].p, lx, ly) <= PeriodicD2(target.p, cands[j].p, lx, ly))
    && (forall j :: 0 <= j < k ==>
          PeriodicD2(target.p, cands[k].p, lx, ly) < PeriodicD2(target.p, cands[j].p, lx, ly))
  }

  ghost predicate NoneWithin(target: AtomView, cands: seq<AtomView>, lx: real, ly: real, cutoff: real) {
    forall j :: 0 <= j < |cands| ==> cutoff * cutoff <= PeriodicD2(target.p, cands[j].p, lx, ly)
  }

  method FindNearestAtom(target: Atom, candidates: seq<Atom>, lx: real, ly: real, cutoff: real)
    returns (best: Atom?, ghost at: int)
    ensures best == null ==> NoneWithin(target.View(), Views(candidates), lx, ly, cutoff)
    ensures best != null ==> 0 <= at < |candidates| && best == candidates[at]
    ensures best != null ==> IsNearest(target.View(), Views(candidates), lx, ly, cutoff, at)
  {
    hide PeriodicD2;
    best, at := null, 0;
    var bestD2 := cutoff * cutoff;
    for k := 0 to |candidates|
      invariant best == null ==> bestD2 == cutoff * cutoff
      invariant best != null ==>
        && 0 <= at < k && best == candidates[at] && bestD2 < cutoff * cutoff
        && bestD2 == PeriodicD2(target.View().p, candidates[at].View().p, lx, ly)
        && forall j :: 0 <= j < at ==> bestD2 < PeriodicD2(target.View().p, candidates[j].View().p, lx, ly)
      invariant forall j :: 0 <= j < k ==> bestD2 <= PeriodicD2(target.View().p, candidates[j].View().p, lx, ly)
    {
      var d2 := PeriodicD2(target.View().p, candidates[k].View().p, lx, ly);
      if d2 < bestD2 {
        bestD2, best := d2, candidates[k];
        at := k;
      }
    }
  }

  /** The atom that is found has the least distance over all candidates and all their periodic images. */
  lemma NearestOverImages(target: AtomView, cands: seq<AtomView>, lx: real, ly: real, cutoff: real, k: int)
    requires lx > 0.0 && ly > 0.0 && IsNearest(target, cands, lx, ly, cutoff, k)
    ensures exists i: int, j: int ::
      && ImageD2(target.p, cands[k].p, lx, ly, i, j) < cutoff * cutoff
      && forall c, i': int, j': int :: 0 <= c < |cands| ==>
           ImageD2(target.p, cands[k].p, lx, ly, i, j) <= ImageD2(target.p, cands[c].p, lx, ly, i', j')
  {
    hide PeriodicD2, ImageD2;
    forall c | 0 <= c < |cands| {
      PeriodicD2IsLeast(target.p, cands[c].p, lx, ly);
    }
    var i: int, j: int :| PeriodicD2(target.p, cands[k].p, lx, ly) == ImageD2(target.p, cands[k].p, lx, ly, i, j);
  }

  // ---------------------------------------------------------------- charge bookkeeping

  function Total(vs: seq<AtomView>): real {
    if vs == [] then 0.0 else Total(vs[..|vs| - 1]) + vs[|vs| - 1].p.charge
  }

  function CountOf(vs: seq<AtomView>, element: string): nat {
    if vs == [] then 0 else CountOf(vs[..|vs| - 1], element) + if vs[|vs| - 1].p.element == element then 1 else 0
  }

  lemma {:induction false} TotalAppend(vs: seq<AtomView>, ws: seq<AtomView>)
    ensures Total(vs + ws) == Total(vs) + Total(ws)
  {
    if ws == [] {
      assert vs + ws == vs;
    } else {
      var k := |ws| - 1;
      TotalAppend(vs, ws[..k]);
      assert (vs + ws)[..|vs| + k] == vs + ws[..k];
    }
  }

  // The hydrogens put on top of the given oxygens.
  function Hydrogens(oxygens: seq<AtomView>, firstId: int, kind: int, q: real): (hs: seq<AtomView>)
    ensures |hs| == |oxygens|
  {
    seq(|oxygens|, k requires 0 <= k < |oxygens| =>
      AtomView(firstId + k, kind, Placed("H", oxygens[k].p.x, oxygens[k].p.y, oxygens[k].p.z + BOND_LENGTH, q)))
  }

  lemma {:induction false} UniformTotal(vs: seq<AtomView>, q: real)
    requires forall k :: 0 <= k < |vs| ==> vs[k].p.charge == q
    ensures Total(vs) == |vs| as real * q
  {
    if vs != [] {
      UniformTotal(vs[..|vs| - 1], q);
    }
  }

  // What the relabelling pass needs to know: chosen oxygens, surface cations, the new labels and charges.
  datatype Plan = Plan(chosen: set<int>, cations: set<int>, surfaceLabel: Option<string>, types: map<string, int>,
                       qH: real, qOs: real)
  {
    predicate Complete() {
      "Hoh" in types && "Os" in types && (surfaceLabel.Some? ==> surfaceLabel.value in types)
    }

    function Relabel(v: AtomView): AtomView
      requires Complete()
    {
      if v.p.element == "H" then AtomView(v.id, types["Hoh"], v.p.(element := "Hoh", charge := qH))
      else if v.id in chosen then AtomView(v.id, types["Os"], v.p.(element := "Os", charge := qOs))
      else if v.id in cations && surfaceLabel.Some?
          then AtomView(v.id, types[surfaceLabel.value], v.p.(element := surfaceLabel.value))
      else v
    }

    function RelabelAll(vs: seq<AtomView>): (ws: seq<AtomView>)
      requires Complete()
      ensures |ws| == |vs|
    {
      seq(|vs|, k requires 0 <= k < |vs| => Relabel(vs[k]))
    }
  }

  ghost function UpTo(ids: set<int>, n: int): set<int> {
    set i | i in ids && i <= n
  }

  // Atoms as a builder leaves them: numbered from 1, each with the table charge of its element.
  ghost predicate AsBuilt(vs: seq<AtomView>, charges: Charges) {
    forall k :: 0 <= k < |vs| ==> vs[k].id == k + 1 && vs[k].p.charge == ChargeOf(charges, vs[k].p.element, 0.0)
  }

  ghost predicate ChosenOxygens(vs: seq<AtomView>, ids: set<int>) {
    forall i :: i in ids ==> 1 <= i <= |vs| && vs[i - 1].p.element == "O"
  }

  lemma UpToStep(ids: set<int>, n: int)
    requires n >= 1
    ensures |UpTo(ids, n)| == |UpTo(ids, n - 1)| + if n in ids then 1 else 0
  {
    if n in ids {
      assert UpTo(ids, n) == UpTo(ids, n - 1) + {n};
    } else {
      assert UpTo(ids, n) == UpTo(ids, n - 1);
    }
  }

  // What relabelling adds to the charge of one built atom.
  lemma RelabelOne(plan: Plan, v: AtomView, charges: Charges)
    requires plan.Complete() && v.p.charge == ChargeOf(charges, v.p.element, 0.0)
    requires v.id in plan.chosen ==> v.p.element == "O"
    requires plan.qOs == ChargeOf(charges, "O", 0.0) - plan.qH
    ensures plan.Relabel(v).p.charge == v.p.charge
      + (if v.p.element == "H" then plan.qH - ChargeOf(charges, "H", 0.0) else 0.0)
      - (if v.id in plan.chosen then plan.qH else 0.0)
  {
  }

  // h hydrogens of the unit cell change by d each, c chosen oxygens give up q each.
  function Balance(h: nat, c: nat, d: real, q: real): real {
    h as real * d - c as real * q
  }

  lemma BalanceStep(h: nat, c: nat, d: real, q: real, isH: bool, isChosen: bool)
    ensures Balance(h + if isH then 1 else 0, c + if isChosen then 1 else 0, d, q)
         == Balance(h, c, d, q) + (if isH then d else 0.0) - (if isChosen then q else 0.0)
  {
    assert (h + 1) as real * d == h as real * d + d;
    assert (c + 1) as real * q == c as real * q + q;
  }

  lemma SumSnoc(vs: seq<AtomView>)
    requires vs != []
    ensures var n := |vs| - 1;
      && Total(vs) == Total(vs[..n]) + vs[n].p.charge
      && CountOf(vs, "H") == CountOf(vs[..n], "H") + if vs[n].p.element == "H" then 1 else 0
  {
  }

  lemma RelabelSnoc(plan: Plan, vs: seq<AtomView>)
    requires plan.Complete() && vs != []
    ensures var n := |vs| - 1;
      plan.RelabelAll(vs)[..n] == plan.RelabelAll(vs[..n]) && plan.RelabelAll(vs)[n] == plan.Relabel(vs[n])
  {
  }

  /** Relabelling the built atoms: each chosen oxygen gives up qH, and each hydrogen of the unit cell is reset to qH. */
  lemma {:induction false} RelabelBuilt(plan: Plan, vs: seq<AtomView>, charges: Charges)
    requires plan.Complete() && AsBuilt(vs, charges)
    requires forall i :: i in plan.chosen && 1 <= i <= |vs| ==> vs[i - 1].p.element == "O"
    requires forall i :: i in plan.chosen ==> 1 <= i
    requires plan.qOs == ChargeOf(charges, "O", 0.0) - plan.qH
    ensures Total(plan.RelabelAll(vs)) == Total(vs)
      + Balance(CountOf(vs, "H"), |UpTo(plan.chosen, |vs|)|, plan.qH - ChargeOf(charges, "H", 0.0), plan.qH)
  {
    if vs == [] {
      assert UpTo(plan.chosen, 0) == {};
    } else {
      hide Total, CountOf, Balance, UpTo, ChargeOf, Plan.Relabel, Plan.RelabelAll;
      var n := |vs| - 1;
      RelabelBuilt(plan, vs[..n], charges);
      UpToStep(plan.chosen, n + 1);
      RelabelSnoc(plan, vs);
      SumSnoc(vs);
      SumSnoc(plan.RelabelAll(vs));
      RelabelOne(plan, vs[n], charges);
      BalanceStep(CountOf(vs[..n], "H"), |UpTo(plan.chosen, n)|, plan.qH - ChargeOf(charges, "H", 0.0), plan.qH,
                  vs[n].p.element == "H", n + 1 in plan.chosen);
    }
  }

  lemma RelabelHydrogens(plan: Plan, oxygens: seq<AtomView>, firstId: int, kind: int, q: real)
    requires plan.Complete()
    ensures Total(plan.RelabelAll(Hydrogens(oxygens, firstId, kind, q))) == |oxygens| as real * plan.qH
    ensures Total(Hydrogens(oxygens, firstId, kind, q)) == |oxygens| as real * q
  {
    UniformTotal(plan.RelabelAll(Hydrogens(oxygens, firstId, kind, q)), plan.qH);
    UniformTotal(Hydrogens(oxygens, firstId, kind, q), q);
  }

  // The atoms after adding and relabelling, as the two passes leave them.
  function Hydroxylated(base: seq<AtomView>, oxygens: seq<AtomView>, hKind: int, charges: Charges,
                        plan: Plan): seq<AtomView>
    requires plan.Complete()
  {
    var all := base + Hydrogens(oxygens, |base| + 1, hKind, ChargeOf(charges, "H", 0.4));
    if oxygens == [] || !HasCharge(charges, "O") then all else plan.RelabelAll(all)
  }

  lemma MissingCharge(charges: Charges, e: string, default: real)
    ensures !HasCharge(charges, e) ==> ChargeOf(charges, e, default) == default
    ensures HasCharge(charges, e) ==> ChargeOf(charges, e, default) == ChargeOf(charges, e, 0.0)
  {
    if charges != [] {
      MissingCharge(charges[1..], e, default);
      if HasCharge(charges, e) && charges[0].0 != e {
        var k :| 0 <= k < |charges| && charges[k].0 == e;
        assert charges[1..][k - 1].0 == e;
      }
      if HasCharge(charges[1..], e) {
        var k :| 0 <= k < |charges[1..]| && charges[1..][k].0 == e;
        assert charges[k + 1].0 == e;
      }
    }
  }

  lemma RelabelSplit(plan: Plan, vs: seq<AtomView>, ws: seq<AtomView>)
    requires plan.Complete()
    ensures plan.RelabelAll(vs + ws) == plan.RelabelAll(vs) + plan.RelabelAll(ws)
  {
  }

  /** The total charge after hydroxylation, in every case. */
  lemma HydroxylationCharge(base: seq<AtomView>, oxygens: seq<AtomView>, hKind: int, charges: Charges, plan: Plan)
    requires AsBuilt(base, charges) && plan.Complete()
    requires ChosenOxygens(base, plan.chosen) && |plan.chosen| == |oxygens|
    requires plan.qH == ChargeOf(charges, "H", 0.4) && plan.qOs == ChargeOf(charges, "O", 0.0) - plan.qH
    ensures var change := Total(Hydroxylated(base, oxygens, hKind, charges, plan)) - Total(base);
      if oxygens == [] then change == 0.0
      else if !HasCharge(charges, "O") then change == |oxygens| as real * plan.qH
      else if HasCharge(charges, "H") then change == 0.0
      else change == CountOf(base, "H") as real * 0.4
  {
    hide AsBuilt, ChosenOxygens, CountOf, Total, Hydrogens, HasCharge, Plan.RelabelAll, Plan.Relabel;
    var hs := Hydrogens(oxygens, |base| + 1, hKind, plan.qH);
    TotalAppend(base, hs);
    RelabelHydrogens(plan, oxygens, |base| + 1, hKind, plan.qH);
    MissingCharge(charges, "H", 0.4);
    MissingCharge(charges, "H", 0.0);
    if oxygens == [] {
    } else if HasCharge(charges, "O") {
      RelabelSplit(plan, base, hs);
      TotalAppend(plan.RelabelAll(base), plan.RelabelAll(hs));
      ChosenAll(base, plan.chosen);
      RelabelBuilt(plan, base, charges);
      TimesZero(CountOf(base, "H") as real, plan.qH - ChargeOf(charges, "H", 0.0));
    }
  }

  lemma TimesZero(x: real, d: real)
    ensures d == 0.0 ==> x * d == 0.0
    ensures d == 0.4 ==> x * d == x * 0.4
  {
  }

  lemma ChosenAll(base: seq<AtomView>, ids: set<int>)
    requires ChosenOxygens(base, ids)
    ensures UpTo(ids, |base|) == ids
    ensures forall i :: i in ids ==> 1 <= i <= |base| && base[i - 1].p.element == "O"
  {
  }

  /** Hydroxylation conserves charge exactly when nothing is chosen, or oxygen has a table charge and either hydrogen
      has one too or the unit cell holds no hydrogen, or neither oxygen has a charge nor the added hydrogens. */
  lemma HydroxylationConservesIff(base: seq<AtomView>, oxygens: seq<AtomView>, hKind: int, charges: Charges, plan: Plan)
    requires AsBuilt(base, charges) && plan.Complete()
    requires ChosenOxygens(base, plan.chosen) && |plan.chosen| == |oxygens|
    requires plan.qH == ChargeOf(charges, "H", 0.4) && plan.qOs == ChargeOf(charges, "O", 0.0) - plan.qH
    ensures Total(Hydroxylated(base, oxygens, hKind, charges, plan)) == Total(base) <==>
      || oxygens == []
      || (HasCharge(charges, "O") && (HasCharge(charges, "H") || CountOf(base, "H") == 0))
      || (!HasCharge(charges, "O") && plan.qH == 0.0)
  {
    hide AsBuilt, ChosenOxygens, CountOf, Total, HasCharge, Hydroxylated;
    HydroxylationCharge(base, oxygens, hKind, charges, plan);
    if |oxygens| as real * plan.qH == 0.0 && oxygens != [] {
      NonzeroProduct(|oxygens| as real, plan.qH);
    }
  }

  lemma NonzeroProduct(x: real, y: real)
    requires x >= 1.0 && x * y == 0.0
    ensures y == 0.0
  {
  }

  // One unit-cell oxygen at a place of its own, and the plan that chooses it.
  const LoneOxygen := AtomView(1, 1, Placed("O", 0.0, 0.0, 0.0, 0.0))
  const ChoosesFirst := Plan({1}, {}, None, map["O" := 1, "Hoh" := 2, "Os" := 3], 0.4, -0.4)

  /** Without a charge for oxygen the hydrogen on a single oxygen leaves its charge behind. */
  lemma OxygenMissing()
    ensures var charges := [("Si", 2.1)];
      && AsBuilt([LoneOxygen], charges) && ChosenOxygens([LoneOxygen], ChoosesFirst.chosen)
      && Total([LoneOxygen]) == 0.0
      && Total(Hydroxylated([LoneOxygen], [LoneOxygen], 2, charges, ChoosesFirst)) == 0.4
  {
    var charges := [("Si", 2.1)];
    assert ChargeOf(charges[1..], "O", 0.0) == 0.0 && ChargeOf(charges[1..], "H", 0.4) == 0.4;
    assert ChargeOf(charges, "O", 0.0) == 0.0 && ChargeOf(charges, "H", 0.4) == 0.4;
    assert !HasCharge(charges, "O");
    LoneTotal();
    HydroxylationCharge([LoneOxygen], [LoneOxygen], 2, charges, ChoosesFirst);
  }

  lemma LoneTotal()
    ensures Total([LoneOxygen]) == 0.0
  {
    assert [LoneOxygen][..0] == [];
  }

  /** With a hydrogen in the unit cell and no charge for it, that hydrogen gains the default charge. */
  lemma HydrogenMissing(base: seq<AtomView>, plan: Plan)
    requires base == [AtomView(1, 1, Placed("O", 0.0, 0.0, 0.0, -0.8)), AtomView(2, 2, Placed("H", 0.0, 0.0, 1.0, 0.0))]
    requires plan == ChoosesFirst.(qOs := -1.2)
    ensures var charges := [("O", -0.8)];
      && AsBuilt(base, charges) && ChosenOxygens(base, plan.chosen)
      && Total(Hydroxylated(base, [base[0]], 2, charges, plan)) == Total(base) + 0.4
  {
    var charges := [("O", -0.8)];
    assert ChargeOf(charges[1..], "H", 0.0) == 0.0 && ChargeOf(charges[1..], "H", 0.4) == 0.4;
    assert ChargeOf(charges, "O", 0.0) == -0.8 && ChargeOf(charges, "H", 0.4) == 0.4;
    assert charges[0].0 == "O" && !HasCharge(charges, "H");
    CountOne(base);
    hide CountOf, Total, Hydroxylated;
    HydroxylationCharge(base, [base[0]], 2, charges, plan);
  }

  lemma CountOne(vs: seq<AtomView>)
    requires |vs| == 2 && vs[0].p.element == "O" && vs[1].p.element == "H"
    ensures CountOf(vs, "H") == 1
  {
    assert |vs[..1]| == 1 && vs[..1][0] == vs[0];
    assert vs[..1][..0] == [];
    assert CountOf(vs[..1], "H") == 0;
  }

  // ---------------------------------------------------------------- the type table

  // The table after relabelling: Os and the surface cation are appended, H is renamed to Hoh.
  function FinalTypes(t: map<string, int>, maxId: int, surfaceLabel: Option<string>): map<string, int> {
    var t2 := ExtendedTypes(t, maxId, surfaceLabel);
    if "H" in t then (t2 - {"H"})["Hoh" := t["H"]]
    else t2["Hoh" := NextId(t, maxId, surfaceLabel)]
  }

  function WithOs(t: map<string, int>, maxId: int): map<string, int> {
    if "Os" in t then t else t["Os" := maxId + 1]
  }

  function NextAfterOs(t: map<string, int>, maxId: int): int {
    if "Os" in t then maxId + 1 else maxId + 2
  }

  function ExtendedTypes(t: map<string, int>, maxId: int, surfaceLabel: Option<string>): map<string, int> {
    var t1 := WithOs(t, maxId);
    if surfaceLabel.Some? && surfaceLabel.value !in t1 then t1[surfaceLabel.value := NextAfterOs(t, maxId)] else t1
  }

  function NextId(t: map<string, int>, maxId: int, surfaceLabel: Option<string>): int {
    NextAfterOs(t, maxId) + if surfaceLabel.Some? && surfaceLabel.value !in WithOs(t, maxId) then 1 else 0
  }

  lemma MaxIdAttained(t: map<string, int>)
    requires NumbersOnto(t) && |t| > 0
    ensures exists e :: e in t && t[e] == |t|
  {
    if forall e :: e in t ==> t[e] != |t| {
      var ids := set e | e in t :: t[e];
      IntervalCard(1, |t| - 1, ids);
      InjectionBoundsCard(t.Keys, ids, t);
      assert false;
    }
  }

  lemma ExtendedNumbering(t: map<string, int>, surfaceLabel: Option<string>)
    requires NumbersOnto(t)
    ensures NumbersOnto(ExtendedTypes(t, |t|, surfaceLabel))
  {
    if "Os" !in t {
      NumberingExtended(t, "Os");
    }
    var t1 := WithOs(t, |t|);
    if surfaceLabel.Some? && surfaceLabel.value !in t1 {
      NumberingExtended(t1, surfaceLabel.value);
    }
  }

  lemma RenameFresh(t: map<string, int>)
    requires NumbersOnto(t) && "H" in t && "Hoh" !in t
    ensures NumbersOnto((t - {"H"})["Hoh" := t["H"]])
  {
    var r := (t - {"H"})["Hoh" := t["H"]];
    assert r.Keys == t.Keys - {"H"} + {"Hoh"};
    assert |t.Keys - {"H"}| == |t| - 1;
    assert |r| == |t|;
  }

  // Renaming H to Hoh in a numbering that already knows Hoh loses the number of Hoh.
  lemma RenameClash(t: map<string, int>)
    requires NumbersOnto(t) && "H" in t && "Hoh" in t
    ensures NumbersOnto((t - {"H"})["Hoh" := t["H"]]) <==> t["Hoh"] == |t|
  {
    var r := (t - {"H"})["Hoh" := t["H"]];
    assert r.Keys == t.Keys - {"H"};
    assert |r| == |t| - 1;
    MaxIdAttained(t);
    var e :| e in t && t[e] == |t|;
    var f := if e == "H" then "Hoh" else e;
    assert t["Hoh"] != |t| ==> f in r && r[f] == |t|;
  }

  /** After relabelling, the type table is again a numbering by 1..N exactly when the unit cell brought no label Hoh of
      its own, or that label already had the last number. */
  lemma FinalTypesNumbering(t: map<string, int>, surfaceLabel: Option<string>)
    requires NumbersOnto(t) && "H" in t
    requires surfaceLabel.Some? ==> surfaceLabel.value != "H" && surfaceLabel.value != "Hoh"
    ensures NumbersOnto(FinalTypes(t, |t|, surfaceLabel)) <==>
      ("Hoh" in t ==> t["Hoh"] == |ExtendedTypes(t, |t|, surfaceLabel)|)
  {
    ExtendedNumbering(t, surfaceLabel);
    if "Hoh" in t {
      RenameClash(ExtendedTypes(t, |t|, surfaceLabel));
    } else {
      RenameFresh(ExtendedTypes(t, |t|, surfaceLabel));
    }
  }

  /** The table after relabelling, entry by entry: hydrogen is renamed, the new labels get the next numbers in turn, and
      all other numbers stay. */
  lemma FinalTypesAre(t: map<string, int>, surfaceLabel: Option<string>)
    requires "H" in t && "Hoh" !in t
    requires surfaceLabel.Some? ==> surfaceLabel.value !in {"H", "Hoh", "Os"}
    ensures var final, n := FinalTypes(t, |t|, surfaceLabel), |t|;
      var extra := if surfaceLabel.Some? then {surfaceLabel.value} else {};
      && final.Keys == t.Keys - {"H"} + {"Hoh", "Os"} + extra
      && final["Hoh"] == t["H"] && (forall e :: e in t && e != "H" ==> final[e] == t[e])
      && ("Os" !in t ==> final["Os"] == n + 1)
      && forall l :: l in extra && l !in t ==> final[l] == if "Os" in t then n + 1 else n + 2
  {
    hide NumbersOnto;
  }

  /** A unit cell with a label Hoh of its own whose type table is no numbering afterwards: no label has number 2. */
  lemma HohClash()
    ensures var t := map["H" := 1, "Hoh" := 2, "O" := 3];
      NumbersOnto(t) && FinalTypes(t, |t|, None) == map["Hoh" := 1, "O" := 3, "Os" := 4]
    ensures !NumbersOnto(FinalTypes(map["H" := 1, "Hoh" := 2, "O" := 3], 3, None))
  {
    var t := map["H" := 1, "Hoh" := 2, "O" := 3];
    HohTable(t);
    FinalTypesNumbering(t, None);
    hide NumbersOnto;
  }

  lemma HohTable(t: map<string, int>)
    requires t == map["H" := 1, "Hoh" := 2, "O" := 3]
    ensures NumbersOnto(t) && |t| == 3 && |ExtendedTypes(t, 3, None)| == 4
  {
    assert t.Keys == {"H", "Hoh", "O"} && |t.Keys| == 3;
    assert ExtendedTypes(t, 3, None).Keys == {"H", "Hoh", "O", "Os"};
  }

  ghost predicate AllTyped(vs: seq<AtomView>, t: map<string, int>) {
    forall k :: 0 <= k < |vs| ==> vs[k].p.element in t && vs[k].kind == t[vs[k].p.element]
  }

  /** Every relabelled atom carries the number of its new label, and keeps its id and position. */
  lemma FinalTypesConsistent(plan: Plan, vs: seq<AtomView>, t: map<string, int>, maxId: int)
    requires AllTyped(vs, t) && "H" in t && "Hoh" !in t
    requires plan.surfaceLabel.Some? ==> plan.surfaceLabel.value != "H" && plan.surfaceLabel.value != "Hoh"
    requires plan.types == FinalTypes(t, maxId, plan.surfaceLabel)
    ensures plan.Complete()
    ensures AllTyped(plan.RelabelAll(vs), plan.types)
    ensures forall k :: 0 <= k < |vs| ==>
      var v, w := vs[k], plan.RelabelAll(vs)[k];
      w.id == v.id && SamePosition(w.p, v.p) && w.p.element != "H"
  {
  }

  /** The atoms of before are still where they were. */
  ghost predicate KeepsPlaces(before: seq<AtomView>, after: seq<AtomView>) {
    |before| <= |after| && forall k :: 0 <= k < |before| ==> SamePosition(after[k].p, before[k].p)
  }

  lemma PassesKeepPlaces(before: seq<AtomView>, hs: seq<AtomView>, all: seq<AtomView>, plan: Plan)
    requires all == before + hs
    ensures KeepsPlaces(before, all) && (plan.Complete() ==> KeepsPlaces(before, plan.RelabelAll(all)))
  {
  }

  // ---------------------------------------------------------------- the two passes

  function ZMax(vs: seq<AtomView>): real
    requires vs != []
  {
    if |vs| == 1 then vs[0].p.z else MaxR(ZMax(vs[..|vs| - 1]), vs[|vs| - 1].p.z)
  }

  predicate IsSurfaceOxygen(v: AtomView, zMax: real) {
    v.p.element == "O" && AbsR(v.p.z - zMax) < 1.0
  }

  // Positions in vs of the views with a property, in order.
  function Positions(vs: seq<AtomView>, f: AtomView -> bool): (s: seq<nat>)
    ensures forall k :: 0 <= k < |s| ==> s[k] < |vs| && f(vs[s[k]])
    ensures forall k, l :: 0 <= k < l < |s| ==> s[k] < s[l]
  {
    if vs == [] then []
    else
      var n := |vs| - 1;
      Positions(vs[..n], f) + if f(vs[n]) then [n] else []
  }

  lemma {:induction false} PositionsComplete(vs: seq<AtomView>, f: AtomView -> bool, k: nat)
    requires k < |vs| && f(vs[k])
    ensures k in Positions(vs, f)
  {
    if k < |vs| - 1 {
      PositionsComplete(vs[..|vs| - 1], f, k);
    }
  }

  ghost function Select(vs: seq<AtomView>, at: seq<nat>): (os: seq<AtomView>)
    requires forall k :: 0 <= k < |at| ==> at[k] < |vs|
    ensures |os| == |at|
  {
    seq(|at|, k requires 0 <= k < |at| => vs[at[k]])
  }

  ghost function Filtered(vs: seq<AtomView>, f: AtomView -> bool): seq<AtomView> {
    Select(vs, Positions(vs, f))
  }

  method AtomsWith(atoms: seq<Atom>, f: AtomView -> bool) returns (found: seq<Atom>)
    ensures var at := Positions(Views(atoms), f);
      |found| == |at| && forall k :: 0 <= k < |at| ==> found[k] == atoms[at[k]]
    ensures Views(found) == Filtered(Views(atoms), f)
  {
    found := [];
    assert Views(atoms)[..0] == [];
    for i := 0 to |atoms|
      invariant var at := Positions(Views(atoms)[..i], f);
        |found| == |at| && forall k :: 0 <= k < |at| ==> found[k] == atoms[at[k]]
    {
      assert Views(atoms)[..i + 1][..i] == Views(atoms)[..i];
      if f(atoms[i].View()) {
        found := found + [atoms[i]];
      }
    }
    assert Views(atoms)[..|atoms|] == Views(atoms);
  }

  method HighestZ(atoms: seq<Atom>) returns (z: real)
    requires atoms != []
    ensures z == ZMax(Views(atoms))
  {
    z := atoms[0].z;
    assert Views(atoms)[..1] == [atoms[0].View()];
    for i := 1 to |atoms|
      invariant z == ZMax(Views(atoms)[..i])
    {
      assert Views(atoms)[..i + 1][..i] == Views(atoms)[..i];
      z := MaxR(z, atoms[i].z);
    }
    assert Views(atoms)[..|atoms|] == Views(atoms);
  }

  // int(hydroxyl_density * area in nm^2)
  function HydroxylCount(density: real, lx: real, ly: real): int {
    Trunc(density * (lx * ly / 100.0))
  }

  // The groups asked for; only a positive number is ever placed.
  function Wanted(density: real, lx: real, ly: real): nat {
    Max(0, HydroxylCount(density, lx, ly))
  }

  // random.choice(n, k, replace=False): k different indices below n.
  ghost predicate IsChooser(choose: (nat, nat) -> seq<nat>) {
    forall n: nat, k: nat :: k <= n ==>
      |choose(n, k)| == k && Distinct(choose(n, k)) && forall i :: 0 <= i < k ==> choose(n, k)[i] < n
  }

  ghost predicate Numbered(vs: seq<AtomView>) {
    forall k :: 0 <= k < |vs| ==> vs[k].id == k + 1
  }

  function SurfaceTest(zMax: real): AtomView -> bool {
    (v: AtomView) => IsSurfaceOxygen(v, zMax)
  }

  // Positions of the surface oxygens.
  function Surface(vs: seq<AtomView>): seq<nat>
    requires vs != []
  {
    Positions(vs, SurfaceTest(ZMax(vs)))
  }

  // Positions of the oxygens that get a hydrogen.
  ghost function Chosen(vs: seq<AtomView>, choose: (nat, nat) -> seq<nat>, nOh: nat): (at: seq<nat>)
    requires vs != [] && IsChooser(choose)
    ensures |at| == Min(nOh, |Surface(vs)|)
    ensures forall k :: 0 <= k < |at| ==> at[k] < |vs|
  {
    var surface := Surface(vs);
    var selected := choose(|surface|, Min(nOh, |surface|));
    seq(|selected|, k requires 0 <= k < |selected| => surface[selected[k]])
  }

  ghost function IdsOf(vs: seq<AtomView>): set<int> {
    set k | 0 <= k < |vs| :: vs[k].id
  }

  /** The choice is duplicate-free and picks surface oxygens only. */
  lemma ChosenFacts(vs: seq<AtomView>, choose: (nat, nat) -> seq<nat>, nOh: nat)
    requires vs != [] && IsChooser(choose)
    ensures var at := Chosen(vs, choose, nOh);
      Distinct(at) && forall k :: 0 <= k < |at| ==> IsSurfaceOxygen(vs[at[k]], ZMax(vs))
  {
    hide ZMax, IsSurfaceOxygen;
    var at, surface := Chosen(vs, choose, nOh), Surface(vs);
    forall k | 0 <= k < |at|
      ensures IsSurfaceOxygen(vs[at[k]], ZMax(vs))
    {
      assert SurfaceTest(ZMax(vs))(vs[at[k]]);
    }
  }

  /** With atoms numbered from 1, the ids of the choice name exactly the chosen oxygens. */
  lemma ChosenIds(vs: seq<AtomView>, at: seq<nat>)
    requires Numbered(vs) && Distinct(at)
    requires forall k :: 0 <= k < |at| ==> at[k] < |vs| && vs[at[k]].p.element == "O"
    ensures ChosenOxygens(vs, IdsOf(Select(vs, at))) && |IdsOf(Select(vs, at))| == |at|
  {
    var os := Select(vs, at);
    var ids := seq(|os|, k requires 0 <= k < |os| => os[k].id);
    DistinctCard(ids);
    IdsAsSequence(os, ids);
  }

  lemma IdsAsSequence(os: seq<AtomView>, ids: seq<int>)
    requires |ids| == |os| && forall k :: 0 <= k < |os| ==> ids[k] == os[k].id
    ensures SetOf(ids) == IdsOf(os)
  {
    forall i ensures i in SetOf(ids) <==> i in IdsOf(os) {
      if i in IdsOf(os) {
        var k :| 0 <= k < |os| && os[k].id == i;
        assert ids[k] == i;
      }
    }
  }

  lemma IdsOfSnoc(os: seq<AtomView>, i: nat)
    requires i < |os|
    ensures IdsOf(os[..i + 1]) == IdsOf(os[..i]) + {os[i].id}
  {
    forall x ensures x in IdsOf(os[..i + 1]) <==> x in IdsOf(os[..i]) + {os[i].id} {
      if x in IdsOf(os[..i]) {
        var k :| 0 <= k < i && os[k].id == x;
        assert os[..i + 1][k].id == x;
      }
      if x == os[i].id {
        assert os[..i + 1][i].id == x;
      }
    }
  }

  // The loop over the chosen oxygens.
  method PlaceHydrogens(atoms: seq<Atom>, oxygens: seq<Atom>, kind: int, q: real)
    returns (atoms': seq<Atom>, ids: set<int>)
    ensures Views(atoms') == Views(atoms) + Hydrogens(Views(oxygens), |atoms| + 1, kind, q)
    ensures ids == IdsOf(Views(oxygens))
    ensures atoms <= atoms' && (forall k :: |atoms| <= k < |atoms'| ==> fresh(atoms'[k]))
    ensures Distinct(atoms) ==> Distinct(atoms')
  {
    atoms', ids := atoms, {};
    ghost var os := Views(oxygens);
    ghost var hs := Hydrogens(os, |atoms| + 1, kind, q);
    for i := 0 to |oxygens|
      invariant |atoms'| == |atoms| + i && atoms <= atoms' && (forall k :: |atoms| <= k < |atoms'| ==> fresh(atoms'[k]))
      invariant forall k :: |atoms| <= k < |atoms'| ==> atoms'[k].View() == hs[k - |atoms|]
      invariant Distinct(atoms) ==> Distinct(atoms')
      invariant ids == IdsOf(os[..i])
    {
      var o := oxygens[i];
      ids := ids + {o.id};
      IdsOfSnoc(os, i);
      var h := new Atom(|atoms'| + 1, kind, Placed("H", o.x, o.y, o.z + BOND_LENGTH, q));
      atoms' := atoms' + [h];
    }
    assert os[..|os|] == os;
  }

  // The random choice among the surface oxygens.
  method ChooseOxygens(atoms: seq<Atom>, nOh: nat, choose: (nat, nat) -> seq<nat>)
    returns (oxygens: seq<Atom>, anySurface: bool)
    requires atoms != [] && IsChooser(choose)
    ensures Views(oxygens) == Select(Views(atoms), Chosen(Views(atoms), choose, nOh))
    ensures anySurface <==> Surface(Views(atoms)) != []
  {
    hide ZMax, Positions;
    var zMax := HighestZ(atoms);
    var surface := AtomsWith(atoms, SurfaceTest(zMax));
    anySurface := |surface| > 0;
    var selected := choose(|surface|, Min(nOh, |surface|));
    oxygens := Picked(surface, selected);
  }

  function Picked(surface: seq<Atom>, selected: seq<nat>): (oxygens: seq<Atom>)
    requires forall k :: 0 <= k < |selected| ==> selected[k] < |surface|
    ensures |oxygens| == |selected| && forall k :: 0 <= k < |selected| ==> oxygens[k] == surface[selected[k]]
  {
    seq(|selected|, k requires 0 <= k < |selected| => surface[selected[k]])
  }

  // The type table once hydrogen has a number, and the atoms once the hydrogens are appended.
  ghost function GrownTypes(vs: seq<AtomView>, types: map<string, int>): map<string, int>
    requires vs != []
  {
    if Surface(vs) == [] || "H" in types then types else types["H" := |types| + 1]
  }

  ghost function GrownAtoms(vs: seq<AtomView>, types: map<string, int>, oxygens: seq<AtomView>,
                            charges: Charges): seq<AtomView>
    requires vs != []
  {
    var grown := GrownTypes(vs, types);
    vs + Hydrogens(oxygens, |vs| + 1, if "H" in grown then grown["H"] else 0, ChargeOf(charges, "H", 0.4))
  }

  /** Puts one hydrogen above each chosen surface oxygen, and gives hydrogen a type as soon as there is a candidate.
      Fails exactly when there are candidates and a negative number of groups is asked for. */
  method AddHydroxylGroups(atoms: seq<Atom>, types: map<string, int>, density: real, lx: real, ly: real,
                           charges: Charges, choose: (nat, nat) -> seq<nat>)
    returns (atoms': seq<Atom>, types': map<string, int>, ids: set<int>, ok: bool)
    requires atoms != [] && IsChooser(choose)
    ensures ok <==> Surface(Views(atoms)) == [] || HydroxylCount(density, lx, ly) >= 0
    ensures !ok ==> atoms' == atoms && types' == types && ids == {}
    ensures ok ==>
      var vs := Views(atoms);
      var os := Select(vs, Chosen(vs, choose, Wanted(density, lx, ly)));
      && types' == GrownTypes(vs, types)
      && (Surface(vs) != [] ==> "H" in types')
      && Views(atoms') == GrownAtoms(vs, types, os, charges)
      && ids == IdsOf(os)
    ensures atoms <= atoms' && (forall k :: |atoms| <= k < |atoms'| ==> fresh(atoms'[k]))
    ensures Distinct(atoms) ==> Distinct(atoms')
  {
    hide ChargeOf, Hydrogens, IdsOf, HydroxylCount, Surface, Chosen, Select, Views, IsChooser, Common.Distinct;
    atoms', types', ids, ok := atoms, types, {}, true;
    var oxygens, anySurface := ChooseOxygens(atoms, Wanted(density, lx, ly), choose);
    if anySurface && HydroxylCount(density, lx, ly) < 0 {
      ok := false;
      return;
    }
    if anySurface && "H" !in types' {
      types' := types'["H" := |types'| + 1];
    }
    var kind := if "H" in types' then types'["H"] else 0;
    atoms', ids := PlaceHydrogens(atoms, oxygens, kind, ChargeOf(charges, "H", 0.4));
  }

  // ---------------------------------------------------------------- the relabelling pass

  // The element of largest positive charge, hydrogen aside; the first one in the table on a tie.
  ghost predicate IsCation(charges: Charges, e: string) {
    exists i :: 0 <= i < |charges| && IsCationAt(charges, e, i)
  }

  ghost predicate IsCationAt(charges: Charges, e: string, i: int)
    requires 0 <= i < |charges|
  {
    && charges[i].0 == e && e != "H" && charges[i].1 > 0.0
    && forall j :: 0 <= j < |charges| && charges[j].0 != "H" ==>
         charges[j].1 < charges[i].1 || (charges[j].1 == charges[i].1 && i <= j)
  }

  // That element, or none when there is no such charge.
  ghost predicate IsStructural(charges: Charges, cation: Option<string>) {
    match cation
    case Some(e) => IsCation(charges, e)
    case None => forall j :: 0 <= j < |charges| && charges[j].0 != "H" ==> charges[j].1 <= 0.0
  }

  method StructuralCation(charges: Charges) returns (cation: Option<string>)
    ensures IsStructural(charges, cation)
  {
    cation := None;
    var best := 0.0;
    ghost var at := 0;
    for i := 0 to |charges|
      invariant cation.None? ==> best == 0.0
      invariant cation.Some? ==>
        && 0 <= at < i && charges[at] == (cation.value, best) && cation.value != "H" && best > 0.0
        && forall j :: 0 <= j < at && charges[j].0 != "H" ==> charges[j].1 < best
      invariant forall j :: 0 <= j < i && charges[j].0 != "H" ==> charges[j].1 <= best
    {
      if charges[i].1 > 0.0 && charges[i].0 != "H" && charges[i].1 > best {
        cation, best := Some(charges[i].0), charges[i].1;
        at := i;
      }
    }
    if cation.Some? {
      assert IsCationAt(charges, cation.value, at);
    }
  }

  function HasElement(e: string): AtomView -> bool {
    (v: AtomView) => v.p.element == e
  }

  function HasId(ids: set<int>): AtomView -> bool {
    (v: AtomView) => v.id in ids
  }

  // The ids of the cations nearest to the first n chosen oxygens.
  ghost function NearestIds(oxygens: seq<AtomView>, cands: seq<AtomView>, lx: real, ly: real, n: nat): set<int>
    requires n <= |oxygens|
  {
    set k, c | 0 <= k < n && 0 <= c < |cands| && IsNearest(oxygens[k], cands, lx, ly, 3.0, c) :: cands[c].id
  }

  lemma NearestIdsStep(oxygens: seq<AtomView>, cands: seq<AtomView>, lx: real, ly: real, n: nat)
    requires n < |oxygens|
    ensures NoneWithin(oxygens[n], cands, lx, ly, 3.0) ==>
      NearestIds(oxygens, cands, lx, ly, n + 1) == NearestIds(oxygens, cands, lx, ly, n)
    ensures forall c :: IsNearest(oxygens[n], cands, lx, ly, 3.0, c) ==>
      NearestIds(oxygens, cands, lx, ly, n + 1) == NearestIds(oxygens, cands, lx, ly, n) + {cands[c].id}
  {
    hide PeriodicD2;
    forall c | IsNearest(oxygens[n], cands, lx, ly, 3.0, c)
      ensures NearestIds(oxygens, cands, lx, ly, n + 1) == NearestIds(oxygens, cands, lx, ly, n) + {cands[c].id}
    {
      NearestUnique(oxygens[n], cands, lx, ly, c);
    }
  }

  lemma NearestUnique(o: AtomView, cands: seq<AtomView>, lx: real, ly: real, c: int)
    requires IsNearest(o, cands, lx, ly, 3.0, c)
    ensures forall d :: IsNearest(o, cands, lx, ly, 3.0, d) ==> d == c
  {
    hide PeriodicD2;
  }

  method SurfaceCations(atoms: seq<Atom>, ids: set<int>, cation: Option<string>, lx: real, ly: real)
    returns (found: set<int>)
    ensures cation.None? ==> found == {}
    ensures cation.Some? ==>
      var oxygens := Filtered(Views(atoms), HasId(ids));
      found == NearestIds(oxygens, Filtered(Views(atoms), HasElement(cation.value)), lx, ly, |oxygens|)
  {
    hide IsNearest, NoneWithin, Filtered, NearestIds, Positions, Views;
    found := {};
    if cation.None? {
      return;
    }
    var candidates := AtomsWith(atoms, HasElement(cation.value));
    var oxygens := AtomsWith(atoms, HasId(ids));
    ghost var os := Filtered(Views(atoms), HasId(ids));
    ghost var cs := Filtered(Views(atoms), HasElement(cation.value));
    NearestIdsNone(os, cs, lx, ly);
    for k := 0 to |oxygens|
      invariant found == NearestIds(os, cs, lx, ly, k)
    {
      var best, at := FindNearestAtom(oxygens[k], candidates, lx, ly, 3.0);
      NearestIdsStep(os, cs, lx, ly, k);
      if best != null {
        found := found + {best.id};
      }
    }
  }

  lemma NearestIdsNone(os: seq<AtomView>, cs: seq<AtomView>, lx: real, ly: real)
    ensures NearestIds(os, cs, lx, ly, 0) == {}
  {
  }

  method HighestType(types: map<string, int>) returns (m: int)
    requires types != map[]
    ensures m in types.Values && forall e :: e in types ==> types[e] <= m
  {
    var e :| e in types;
    m := types[e];
    var rest := types.Keys - {e};
    while rest != {}
      invariant rest <= types.Keys
      invariant m in types.Values && forall f :: f in types && f !in rest ==> types[f] <= m
      decreases rest
    {
      var f :| f in rest;
      m := Max(m, types[f]);
      rest := rest - {f};
    }
  }

  lemma HighestOfNumbering(t: map<string, int>, m: int)
    requires NumbersOnto(t) && t != map[]
    requires m in t.Values && forall e :: e in t ==> t[e] <= m
    ensures m == |t|
  {
    MaxIdAttained(t);
  }

  // Relabels every atom in place.
  method RelabelInPlace(atoms: seq<Atom>, plan: Plan)
    requires plan.Complete() && Distinct(atoms)
    modifies atoms
    ensures Views(atoms) == plan.RelabelAll(old(Views(atoms)))
  {
    ghost var before := Views(atoms);
    for i := 0 to |atoms|
      invariant forall k :: 0 <= k < i ==> atoms[k].View() == plan.Relabel(before[k])
      invariant forall k :: i <= k < |atoms| ==> atoms[k].View() == before[k]
    {
      var atom := atoms[i];
      if atom.element == "H" {
        atom.element, atom.kind, atom.charge := "Hoh", plan.types["Hoh"], plan.qH;
      } else if atom.id in plan.chosen {
        atom.element, atom.kind, atom.charge := "Os", plan.types["Os"], plan.qOs;
      } else if atom.id in plan.cations && plan.surfaceLabel.Some? {
        atom.element, atom.kind := plan.surfaceLabel.value, plan.types[plan.surfaceLabel.value];
      }
    }
  }

  method SumCharges(atoms: seq<Atom>) returns (q: real)
    ensures q == Total(Views(atoms))
  {
    q := 0.0;
    for i := 0 to |atoms|
      invariant q == Total(Views(atoms)[..i])
    {
      assert Views(atoms)[..i + 1][..i] == Views(atoms)[..i];
      q := q + atoms[i].charge;
    }
    assert Views(atoms)[..|atoms|] == Views(atoms);
  }

  // The plan of the relabelling pass, apart from which cation is structural.
  ghost predicate IsPlan(plan: Plan, vs: seq<AtomView>, types: map<string, int>, ids: set<int>, charges: Charges,
                         lx: real, ly: real, maxId: int, cation: Option<string>)
  {
    var oxygens := Filtered(vs, HasId(ids));
    && plan.chosen == ids
    && plan.qH == ChargeOf(charges, "H", 0.4) && plan.qOs == ChargeOf(charges, "O", 0.0) - plan.qH
    && plan.cations == (if cation.None? then {}
                        else NearestIds(oxygens, Filtered(vs, HasElement(cation.value)), lx, ly, |oxygens|))
    && plan.surfaceLabel == (if cation.Some? && plan.cations != {} then Some(cation.value + "_s") else None)
    && plan.types == FinalTypes(types, maxId, plan.surfaceLabel)
  }

  /** Relabels hydrogens, chosen oxygens and their nearest cations in place.  The pass is skipped when nothing was
      chosen or oxygen has no table charge; otherwise it fails exactly when the slab is then charged by 0.01 or more. */
  method FinalizeHydroxylTypes(atoms: seq<Atom>, types: map<string, int>, ids: set<int>, charges: Charges, lx: real,
                               ly: real)
    returns (types': map<string, int>, neutral: bool, ghost plan: Plan, ghost maxId: int, ghost cation: Option<string>)
    requires Distinct(atoms) && types != map[]
    modifies atoms
    ensures ids == {} || !HasCharge(charges, "O") ==>
      types' == types && neutral && Views(atoms) == old(Views(atoms))
    ensures ids != {} && HasCharge(charges, "O") ==>
      && IsPlan(plan, old(Views(atoms)), types, ids, charges, lx, ly, maxId, cation) && plan.Complete()
      && maxId in types.Values && (forall e :: e in types ==> types[e] <= maxId)
      && IsStructural(charges, cation)
      && types' == plan.types
      && Views(atoms) == plan.RelabelAll(old(Views(atoms)))
      && (neutral <==> AbsR(Total(Views(atoms))) < 0.01)
  {
    hide IsNearest, Filtered, NearestIds, Positions, Views, ChargeOf, IsStructural, Total, Plan.RelabelAll;
    plan, maxId, cation := Plan({}, {}, None, map[], 0.0, 0.0), 0, None;
    if ids == {} || !HasCharge(charges, "O") {
      return types, true, plan, maxId, cation;
    }
    var qH := ChargeOf(charges, "H", 0.4);
    var qOs := ChargeOf(charges, "O", 0.0) - qH;
    var cationElem := StructuralCation(charges);
    var cations := SurfaceCations(atoms, ids, cationElem, lx, ly);
    var highest := HighestType(types);
    var surfaceLabel := if cationElem.Some? && cations != {} then Some(cationElem.value + "_s") else None;
    types' := FinalTypes(types, highest, surfaceLabel);
    var thePlan := Plan(ids, cations, surfaceLabel, types', qH, qOs);
    LabelsPresent(types, highest, surfaceLabel, cationElem);
    RelabelInPlace(atoms, thePlan);
    var total := SumCharges(atoms);
    neutral := AbsR(total) < 0.01;
    plan, maxId, cation := thePlan, highest, cationElem;
  }

  lemma LabelsPresent(types: map<string, int>, maxId: int, surfaceLabel: Option<string>, cation: Option<string>)
    requires surfaceLabel.Some? ==> cation.Some? && surfaceLabel.value == cation.value + "_s"
    ensures var t := FinalTypes(types, maxId, surfaceLabel);
      "Hoh" in t && "Os" in t && (surfaceLabel.Some? ==> surfaceLabel.value in t)
    ensures surfaceLabel.Some? ==> surfaceLabel.value != "H" && surfaceLabel.value != "Hoh"
  {
    if surfaceLabel.Some? {
      var l := surfaceLabel.value;
      assert l[|l| - 1] == 's';
    }
  }

  // ---------------------------------------------------------------- neutral slabs

  function BasisCharge(basis: seq<Site>, charges: Charges): real {
    if basis == [] then 0.0
    else BasisCharge(basis[..|basis| - 1], charges) + ChargeOf(charges, basis[|basis| - 1].element, 0.0)
  }

  // Placements that give each site its table charge, as both builds do.
  ghost predicate KeepsCharge(place: Placement, charges: Charges) {
    forall o: Origin ::
      At(place, o).charge == ChargeOf(charges, o.2.element, 0.0) && At(place, o).element == o.2.element
  }

  function OriginCharge(origins: seq<Origin>, charges: Charges): real {
    if origins == [] then 0.0
    else OriginCharge(origins[..|origins| - 1], charges) + ChargeOf(charges, origins[|origins| - 1].2.element, 0.0)
  }

  lemma {:induction false} OriginChargeAppend(a: seq<Origin>, b: seq<Origin>, charges: Charges)
    ensures OriginCharge(a + b, charges) == OriginCharge(a, charges) + OriginCharge(b, charges)
  {
    hide ChargeOf;
    if b == [] {
      assert a + b == a;
    } else {
      var k := |b| - 1;
      OriginChargeAppend(a, b[..k], charges);
      assert (a + b)[..|a| + k] == a + b[..k];
    }
  }

  lemma {:induction false} SitesCharge(iz: int, cell: Cell, basis: seq<Site>, charges: Charges)
    ensures OriginCharge(OverSites(iz, cell, basis), charges) == BasisCharge(basis, charges)
  {
    hide ChargeOf;
    if basis != [] {
      var k := |basis| - 1;
      SitesCharge(iz, cell, basis[..k], charges);
      assert OverSites(iz, cell, basis)[..k] == OverSites(iz, cell, basis[..k]);
    }
  }

  // The charge of a number of unit cells.
  function CellsCharge(n: nat, basis: seq<Site>, charges: Charges): real {
    n as real * BasisCharge(basis, charges)
  }

  lemma MoreCellsCharge(n: nat, k: nat, basis: seq<Site>, charges: Charges)
    ensures CellsCharge(n + k, basis, charges) == CellsCharge(n, basis, charges) + CellsCharge(k, basis, charges)
    ensures CellsCharge(0, basis, charges) == 0.0 && CellsCharge(1, basis, charges) == BasisCharge(basis, charges)
  {
    hide BasisCharge;
  }

  lemma {:induction false} ChargeOfCells(iz: int, cells: seq<Cell>, basis: seq<Site>, charges: Charges)
    ensures OriginCharge(OverCells(iz, cells, basis), charges) == CellsCharge(|cells|, basis, charges)
  {
    hide OverSites, BasisCharge, CellsCharge;
    if cells != [] {
      var k := |cells| - 1;
      ChargeOfCells(iz, cells[..k], basis, charges);
      SitesCharge(iz, cells[k], basis, charges);
      OriginChargeAppend(OverCells(iz, cells[..k], basis), OverSites(iz, cells[k], basis), charges);
      MoreCellsCharge(k, 1, basis, charges);
    } else {
      MoreCellsCharge(0, 0, basis, charges);
    }
  }

  lemma {:induction false} ChargeOfLayers(nz: nat, cells: seq<Cell>, basis: seq<Site>, charges: Charges)
    ensures OriginCharge(OverLayers(nz, cells, basis), charges) == CellsCharge(nz * |cells|, basis, charges)
  {
    hide OverCells, BasisCharge, CellsCharge;
    if nz > 0 {
      ChargeOfLayers(nz - 1, cells, basis, charges);
      ChargeOfCells(nz - 1, cells, basis, charges);
      OriginChargeAppend(OverLayers(nz - 1, cells, basis), OverCells(nz - 1, cells, basis), charges);
      MoreCellsCharge((nz - 1) * |cells|, |cells|, basis, charges);
      Distribute(nz - 1, 1, |cells|);
    } else {
      MoreCellsCharge(0, 0, basis, charges);
    }
  }

  // The atoms of an element among origins, and in the unit cell.
  function OriginCount(origins: seq<Origin>, element: string): nat {
    if origins == [] then 0
    else
      var k := |origins| - 1;
      OriginCount(origins[..k], element) + if origins[k].2.element == element then 1 else 0
  }

  function BasisCount(basis: seq<Site>, element: string): nat {
    if basis == [] then 0
    else
      var k := |basis| - 1;
      BasisCount(basis[..k], element) + if basis[k].element == element then 1 else 0
  }

  lemma {:induction false} OriginCountAppend(a: seq<Origin>, b: seq<Origin>, element: string)
    ensures OriginCount(a + b, element) == OriginCount(a, element) + OriginCount(b, element)
  {
    if b == [] {
      assert a + b == a;
    } else {
      var k := |b| - 1;
      OriginCountAppend(a, b[..k], element);
      assert (a + b)[..|a| + k] == a + b[..k];
    }
  }

  lemma {:induction false} CountOfSites(iz: int, cell: Cell, basis: seq<Site>, element: string)
    ensures OriginCount(OverSites(iz, cell, basis), element) == BasisCount(basis, element)
  {
    if basis != [] {
      var k := |basis| - 1;
      CountOfSites(iz, cell, basis[..k], element);
      assert OverSites(iz, cell, basis)[..k] == OverSites(iz, cell, basis[..k]);
    }
  }

  lemma {:induction false} CountOfCells(iz: int, cells: seq<Cell>, basis: seq<Site>, element: string)
    ensures OriginCount(OverCells(iz, cells, basis), element) == |cells| * BasisCount(basis, element)
  {
    hide OverSites, BasisCount;
    if cells != [] {
      var k := |cells| - 1;
      CountOfCells(iz, cells[..k], basis, element);
      CountOfSites(iz, cells[k], basis, element);
      OriginCountAppend(OverCells(iz, cells[..k], basis), OverSites(iz, cells[k], basis), element);
      Distribute(k, 1, BasisCount(basis, element));
    }
  }

  lemma {:induction false} CountOfLayers(nz: nat, cells: seq<Cell>, basis: seq<Site>, element: string)
    ensures OriginCount(OverLayers(nz, cells, basis), element) == nz * |cells| * BasisCount(basis, element)
  {
    hide OverCells, BasisCount;
    if nz > 0 {
      CountOfLayers(nz - 1, cells, basis, element);
      CountOfCells(nz - 1, cells, basis, element);
      OriginCountAppend(OverLayers(nz - 1, cells, basis), OverCells(nz - 1, cells, basis), element);
      Distribute((nz - 1) * |cells|, |cells|, BasisCount(basis, element));
      Distribute(nz - 1, 1, |cells|);
    }
  }

  lemma {:induction false} CountOfOrigins(place: Placement, origins: seq<Origin>, charges: Charges, vs: seq<AtomView>,
                                          element: string)
    requires KeepsCharge(place, charges)
    requires |vs| == |origins| && forall k :: 0 <= k < |vs| ==> vs[k].p == PlaceAll(place, origins)[k]
    ensures CountOf(vs, element) == OriginCount(origins, element)
  {
    hide ChargeOf;
    if vs != [] {
      var k := |vs| - 1;
      CountOfOrigins(place, origins[..k], charges, vs[..k], element);
      PlacedCharge(place, origins, charges, k);
    }
  }

  lemma PlacedCharge(place: Placement, origins: seq<Origin>, charges: Charges, k: nat)
    requires KeepsCharge(place, charges) && k < |origins|
    ensures var p := PlaceAll(place, origins)[k];
      && p.charge == ChargeOf(charges, origins[k].2.element, 0.0) && p.element == origins[k].2.element
  {
    assert At(place, origins[k]) == PlaceAll(place, origins)[k];
  }

  lemma {:induction false} TotalOfOrigins(place: Placement, origins: seq<Origin>, charges: Charges, vs: seq<AtomView>)
    requires KeepsCharge(place, charges)
    requires |vs| == |origins| && forall k :: 0 <= k < |vs| ==> vs[k].p == PlaceAll(place, origins)[k]
    ensures Total(vs) == OriginCharge(origins, charges)
  {
    hide ChargeOf;
    if vs != [] {
      var k := |vs| - 1;
      TotalOfOrigins(place, origins[..k], charges, vs[..k]);
      PlacedCharge(place, origins, charges, k);
    }
  }

  lemma BuiltFromOrigins(place: Placement, origins: seq<Origin>, charges: Charges, vs: seq<AtomView>)
    requires KeepsCharge(place, charges) && Numbered(vs)
    requires |vs| == |origins| && forall k :: 0 <= k < |vs| ==> vs[k].p == PlaceAll(place, origins)[k]
    ensures AsBuilt(vs, charges)
  {
    hide ChargeOf, KeepsCharge;
    forall k | 0 <= k < |vs| {
      PlacedCharge(place, origins, charges, k);
    }
  }

  lemma MatrixPlacementKeepsCharge(m: Matrix, lx: real, ly: real, c: real, charges: Charges)
    requires Det(m) > 0
    ensures KeepsCharge(MatrixPlacement(m, lx, ly, c, charges), charges)
  {
    hide SuperU, SuperV, Numeric.Frac, ChargeOf;
  }

  lemma ReplicatePlacementKeepsCharge(cellX: real, cellY: real, skew: real, mode: CellMode, c: real, charges: Charges)
    ensures KeepsCharge(ReplicatePlacement(cellX, cellY, skew, mode, c, charges), charges)
  {
    hide Numeric.Frac, ChargeOf;
  }

  lemma GrownSlab(base: seq<AtomView>, os: seq<AtomView>, types: map<string, int>, grown: map<string, int>, q: real,
                  all: seq<AtomView>)
    requires Numbered(base) && AllTyped(base, types) && NumbersOnto(types)
    requires grown == types || ("H" !in types && grown == types["H" := |types| + 1])
    requires os != [] ==> "H" in grown
    requires all == base + Hydrogens(os, |base| + 1, if "H" in grown then grown["H"] else 0, q)
    ensures Numbered(all) && AllTyped(all, grown) && NumbersOnto(grown)
    ensures ("Hoh" in grown <==> "Hoh" in types) && (types != map[] ==> grown != map[])
  {
    if grown != types {
      NumberingExtended(types, "H");
    }
  }

  lemma ConservedHere(base: seq<AtomView>, at: seq<nat>, hKind: int, charges: Charges, plan: Plan, all: seq<AtomView>)
    requires AsBuilt(base, charges) && plan.Complete() && at != []
    requires ChosenOxygens(base, plan.chosen) && |plan.chosen| == |at|
    requires forall k :: 0 <= k < |at| ==> at[k] < |base|
    requires plan.qH == ChargeOf(charges, "H", 0.4) && plan.qOs == ChargeOf(charges, "O", 0.0) - plan.qH
    requires HasCharge(charges, "O") && (HasCharge(charges, "H") || CountOf(base, "H") == 0)
    requires all == base + Hydrogens(Select(base, at), |base| + 1, hKind, ChargeOf(charges, "H", 0.4))
    ensures Total(plan.RelabelAll(all)) == Total(base)
  {
    hide AsBuilt, ChosenOxygens, ChargeOf, HasCharge, CountOf, Total, Plan.Relabel, Plan.RelabelAll, Hydrogens,
        Plan.Complete;
    HydroxylationConservesIff(base, Select(base, at), hKind, charges, plan);
  }

  /** The two passes in a row, as the builders run them on a freshly built slab. Fails exactly on a negative number of
      groups with candidates for them; the type table stays a numbering that fits the atoms unless the second pass runs
      on a unit cell that brought a label Hoh of its own. */
  method Hydroxylate(atoms: seq<Atom>, types: map<string, int>, density: real, lx: real, ly: real, charges: Charges,
                     choose: (nat, nat) -> seq<nat>)
    returns (atoms': seq<Atom>, types': map<string, int>, ok: bool, neutral: bool, ghost plan: Plan, ghost maxId: int,
             ghost cation: Option<string>)
    requires atoms != [] && Distinct(atoms) && types != map[] && IsChooser(choose)
    requires AsBuilt(Views(atoms), charges) && AllTyped(Views(atoms), types) && NumbersOnto(types)
    modifies atoms
    ensures ok <==> old(Surface(Views(atoms))) == [] || HydroxylCount(density, lx, ly) >= 0
    ensures !ok ==> atoms' == atoms && types' == types && Views(atoms) == old(Views(atoms))
    ensures atoms <= atoms' && Distinct(atoms') && (forall k :: |atoms| <= k < |atoms'| ==> fresh(atoms'[k]))
    ensures ok ==> |atoms'| == |atoms| + Min(Wanted(density, lx, ly), |old(Surface(Views(atoms)))|)
    ensures Numbered(Views(atoms')) && KeepsPlaces(old(Views(atoms)), Views(atoms'))
    ensures "Hoh" !in types || |atoms'| == |atoms| || !HasCharge(charges, "O") ==>
      AllTyped(Views(atoms'), types') && NumbersOnto(types')
    ensures HasCharge(charges, "O") && (HasCharge(charges, "H") || CountOf(old(Views(atoms)), "H") == 0) ==>
      && Total(Views(atoms')) == Total(old(Views(atoms)))
      && (AbsR(Total(Views(atoms'))) < 0.01 ==> neutral)
    ensures ok ==>
      var base := old(Views(atoms));
      var oxygens := Select(base, Chosen(base, choose, Wanted(density, lx, ly)));
      var all := GrownAtoms(base, types, oxygens, charges);
      if oxygens == [] || !HasCharge(charges, "O")
      then Views(atoms') == all && types' == GrownTypes(base, types) && neutral
      else
        && IsPlan(plan, all, GrownTypes(base, types), IdsOf(oxygens), charges, lx, ly, maxId, cation) && plan.Complete()
        && maxId == |GrownTypes(base, types)| && IsStructural(charges, cation)
        && Views(atoms') == plan.RelabelAll(all) && types' == plan.types
        && (neutral <==> AbsR(Total(Views(atoms'))) < 0.01)
  {
    hide ChargeOf, HasCharge, CountOf, Total, IdsOf, Plan.Relabel, Surface, Chosen, HydroxylCount, NearestIds, Filtered,
         Plan.RelabelAll, Hydrogens, ZMax, FinalTypes, NumbersOnto, AllTyped, IsStructural, KeepsPlaces;
    plan, maxId, cation := Plan({}, {}, None, map[], 0.0, 0.0), 0, None;
    neutral := true;
    ghost var base := Views(atoms);
    ghost var n := Wanted(density, lx, ly);
    ghost var at := Chosen(base, choose, n);
    ghost var os := Select(base, at);
    var ids: set<int>;
    atoms', types', ids, ok := AddHydroxylGroups(atoms, types, density, lx, ly, charges, choose);
    if !ok {
      PassesKeepPlaces(base, [], Views(atoms'), plan);
      return;
    }
    ghost var all := Views(atoms');
    ghost var grown := types';
    ghost var hs := Hydrogens(os, |base| + 1, if "H" in grown then grown["H"] else 0, ChargeOf(charges, "H", 0.4));
    ChosenFacts(base, choose, n);
    ChosenIds(base, at);
    GrownSlab(base, os, types, grown, ChargeOf(charges, "H", 0.4), all);
    types', neutral, plan, maxId, cation := FinalizeHydroxylTypes(atoms', types', ids, charges, lx, ly);
    PassesKeepPlaces(base, hs, all, plan);
    if ids != {} && HasCharge(charges, "O") {
      HighestOfNumbering(grown, maxId);
      LabelsPresent(grown, maxId, plan.surfaceLabel, cation);
      RelabelKeepsIds(plan, all);
      if "Hoh" !in grown {
        FinalTypesConsistent(plan, all, grown, maxId);
        FinalTypesNumbering(grown, plan.surfaceLabel);
      }
      if HasCharge(charges, "H") || CountOf(base, "H") == 0 {
        ConservedHere(base, at, grown["H"], charges, plan, all);
      }
      assert Numbered(Views(atoms'));
    } else {
      assert Numbered(Views(atoms'));
      assert AllTyped(Views(atoms'), types');
      assert NumbersOnto(types');
      assert HasCharge(charges, "O") ==> Views(atoms') == base;
    }
  }

  lemma RelabelKeepsIds(plan: Plan, vs: seq<AtomView>)
    requires plan.Complete() && Numbered(vs)
    ensures Numbered(plan.RelabelAll(vs))
  {
  }
}
