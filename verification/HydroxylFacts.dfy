/** What hydroxylating a slab amounts to, said without the passes that do it. */
module HydroxylFacts {
  import opened Common
  import opened Numeric
  import opened CrystalPlacement
  import opened Hydroxyl

  // ---------------------------------------------------------------- the candidates and their number

  // An oxygen with no atom 1 or more above it.
  ghost predicate IsTopOxygen(vs: seq<AtomView>, k: nat)
    requires k < |vs|
  {
    vs[k].p.element == "O" && forall j :: 0 <= j < |vs| ==> vs[j].p.z - vs[k].p.z < 1.0
  }

  ghost function TopOxygens(vs: seq<AtomView>): set<nat> {
    set k: nat | k < |vs| && IsTopOxygen(vs, k)
  }

  /** No atom is higher, and some atom is as high. */
  lemma {:induction false} ZMaxIsHighest(vs: seq<AtomView>)
    requires vs != []
    ensures forall k :: 0 <= k < |vs| ==> vs[k].p.z <= ZMax(vs)
    ensures exists k :: 0 <= k < |vs| && vs[k].p.z == ZMax(vs)
  {
    if |vs| > 1 {
      var n := |vs| - 1;
      ZMaxIsHighest(vs[..n]);
      var k :| 0 <= k < n && vs[..n][k].p.z == ZMax(vs[..n]);
      assert vs[k].p.z == ZMax(vs[..n]);
      assert forall j :: 0 <= j < n ==> vs[j] == vs[..n][j];
      assert vs[n].p.z == ZMax(vs) || vs[k].p.z == ZMax(vs);
    } else {
      assert vs[0].p.z == ZMax(vs);
    }
  }

  lemma TopIsSurface(vs: seq<AtomView>, k: nat)
    requires k < |vs|
    ensures IsTopOxygen(vs, k) <==> IsSurfaceOxygen(vs[k], ZMax(vs))
  {
    ZMaxIsHighest(vs);
    hide ZMax;
    var top :| 0 <= top < |vs| && vs[top].p.z == ZMax(vs);
  }

  /** The candidates of the program are the oxygens with no atom 1 or more above them. */
  lemma SurfaceIsTop(vs: seq<AtomView>)
    requires vs != []
    ensures SetOf(Surface(vs)) == TopOxygens(vs) && |Surface(vs)| == |TopOxygens(vs)|
  {
    var surface := Surface(vs);
    forall k: nat
      ensures k in surface <==> k < |vs| && IsTopOxygen(vs, k)
    {
      if k < |vs| {
        TopIsSurface(vs, k);
        if IsTopOxygen(vs, k) {
          PositionsComplete(vs, SurfaceTest(ZMax(vs)), k);
        }
      }
    }
    hide IsTopOxygen, Hydroxyl.Surface;
    DistinctCard(surface);
    assert SetOf(surface) == TopOxygens(vs);
  }

  // Groups per square nanometre times the area of the slab.
  function GroupsOn(density: real, lx: real, ly: real): real {
    density * (lx * ly) / 100.0
  }

  /** The number of groups asked for is the whole part of density times area, or none. */
  lemma WantedIs(density: real, lx: real, ly: real)
    ensures var w, groups := Wanted(density, lx, ly) as real, MaxR(0.0, GroupsOn(density, lx, ly));
      w <= groups < w + 1.0
    ensures HydroxylCount(density, lx, ly) < 0 <==> GroupsOn(density, lx, ly) <= -1.0
  {
    var area := lx * ly;
    PerHundred(density, area);
    TruncIs(density * (area / 100.0));
    hide Numeric.Trunc;
  }

  lemma PerHundred(density: real, area: real)
    ensures density * (area / 100.0) == density * area / 100.0
  {
  }

  lemma TruncIs(x: real)
    ensures x >= 0.0 ==> Trunc(x) as real <= x < Trunc(x) as real + 1.0
    ensures x < 0.0 ==> Trunc(x) as real - 1.0 < x <= Trunc(x) as real
  {
  }

  // ---------------------------------------------------------------- the result

  /** As many candidates as asked for and as there are, each once. */
  ghost predicate IsChoice(before: seq<AtomView>, chosen: seq<nat>, density: real, lx: real, ly: real) {
    var groups, n := MaxR(0.0, GroupsOn(density, lx, ly)), |chosen| as real;
    && Distinct(chosen) && (forall j :: 0 <= j < |chosen| ==> chosen[j] in TopOxygens(before))
    && n <= groups && (groups < n + 1.0 || |chosen| == |TopOxygens(before)|)
  }

  /** The old atoms have not moved; above each chosen one, 0.96 higher, stands a new one. */
  ghost predicate GroupsStand(before: seq<AtomView>, after: seq<AtomView>, chosen: seq<nat>) {
    && |after| == |before| + |chosen| && KeepsPlaces(before, after)
    && forall j :: 0 <= j < |chosen| ==>
         var h := after[|before| + j].p;
         && chosen[j] < |before|
         && h.x == before[chosen[j]].p.x && h.y == before[chosen[j]].p.y && h.z == before[chosen[j]].p.z + 0.96
  }

  /** Without relabelling: the old atoms as they were, the new ones hydrogen. */
  ghost predicate LabelsKept(before: seq<AtomView>, after: seq<AtomView>, charges: Charges)
    requires |before| <= |after|
  {
    && (forall k :: 0 <= k < |before| ==> after[k].p == before[k].p)
    && forall k :: |before| <= k < |after| ==>
         after[k].p.element == "H" && after[k].p.charge == ChargeOf(charges, "H", 0.4)
  }

  // Of all atoms of element e, atom k is the first of those nearest to atom o, and within 3 of it.
  ghost predicate IsNearestOf(vs: seq<AtomView>, o: nat, k: nat, e: string, lx: real, ly: real)
    requires o < |vs| && k < |vs|
  {
    && vs[k].p.element == e && PeriodicD2(vs[o].p, vs[k].p, lx, ly) < 9.0
    && forall i :: 0 <= i < |vs| && vs[i].p.element == e ==>
         || PeriodicD2(vs[o].p, vs[k].p, lx, ly) < PeriodicD2(vs[o].p, vs[i].p, lx, ly)
         || (PeriodicD2(vs[o].p, vs[k].p, lx, ly) == PeriodicD2(vs[o].p, vs[i].p, lx, ly) && k <= i)
  }

  // Atom k is the structural cation nearest to some chosen oxygen.
  ghost predicate IsAtSurface(before: seq<AtomView>, chosen: seq<nat>, k: nat, cation: Option<string>, lx: real,
                              ly: real)
    requires k < |before| && forall j :: 0 <= j < |chosen| ==> chosen[j] < |before|
  {
    cation.Some? && exists j :: 0 <= j < |chosen| && IsNearestOf(before, chosen[j], k, cation.value, lx, ly)
  }

  // The new element and charge of an old atom.
  ghost predicate IsRelabelled(before: seq<AtomView>, p: Placed, chosen: seq<nat>, k: nat, cation: Option<string>,
                               charges: Charges, lx: real, ly: real)
    requires k < |before| && forall j :: 0 <= j < |chosen| ==> chosen[j] < |before|
  {
    var was := before[k].p;
    var qH := ChargeOf(charges, "H", 0.4);
    if was.element == "H" then p.element == "Hoh" && p.charge == qH
    else if k in chosen then p.element == "Os" && p.charge == ChargeOf(charges, "O", 0.0) - qH
    else
      && p.charge == was.charge
      && p.element == if IsAtSurface(before, chosen, k, cation, lx, ly) then was.element + "_s" else was.element
  }

  /** With relabelling: hydroxyl hydrogens, chosen oxygens with the charge of their hydrogen taken off, the structural
      cations next to them; all other atoms as they were. */
  ghost predicate LabelsChanged(before: seq<AtomView>, after: seq<AtomView>, chosen: seq<nat>, cation: Option<string>,
                                charges: Charges, lx: real, ly: real)
    requires |before| <= |after| && forall j :: 0 <= j < |chosen| ==> chosen[j] < |before|
  {
    && IsStructural(charges, cation)
    && (forall k :: 0 <= k < |before| ==>
          IsRelabelled(before, after[k].p, chosen, k, cation, charges, lx, ly))
    && forall k :: |before| <= k < |after| ==>
         after[k].p.element == "Hoh" && after[k].p.charge == ChargeOf(charges, "H", 0.4)
  }

  /** The whole of hydroxylating. */
  ghost predicate IsHydroxylation(before: seq<AtomView>, after: seq<AtomView>, chosen: seq<nat>, cation: Option<string>,
                                  density: real, charges: Charges, lx: real, ly: real)
  {
    && IsChoice(before, chosen, density, lx, ly) && GroupsStand(before, after, chosen)
    && (if chosen == [] || !HasCharge(charges, "O") then LabelsKept(before, after, charges)
        else LabelsChanged(before, after, chosen, cation, charges, lx, ly))
  }

  // What n groups add to the total charge.
  function ChargeAdded(before: seq<AtomView>, n: nat, charges: Charges): real {
    if n == 0 then 0.0
    else if !HasCharge(charges, "O") then n as real * ChargeOf(charges, "H", 0.4)
    else if HasCharge(charges, "H") then 0.0
    else CountOf(before, "H") as real * 0.4
  }

  // ---------------------------------------------------------------- the passes do that

  lemma ChoiceIs(before: seq<AtomView>, choose: (nat, nat) -> seq<nat>, density: real, lx: real, ly: real)
    requires before != [] && IsChooser(choose)
    ensures IsChoice(before, Chosen(before, choose, Wanted(density, lx, ly)), density, lx, ly)
  {
    hide Hydroxyl.Surface, Wanted, GroupsOn, IsSurfaceOxygen, ZMax, IsTopOxygen;
    var n := Wanted(density, lx, ly);
    var chosen := Chosen(before, choose, n);
    WantedIs(density, lx, ly);
    SurfaceIsTop(before);
    ChosenFacts(before, choose, n);
    forall j | 0 <= j < |chosen|
      ensures chosen[j] in TopOxygens(before)
    {
      TopIsSurface(before, chosen[j]);
    }
    hide Chosen, TopOxygens;
  }

  lemma GroupsAre(before: seq<AtomView>, chosen: seq<nat>, kind: int, q: real, all: seq<AtomView>, plan: Plan)
    requires forall j :: 0 <= j < |chosen| ==> chosen[j] < |before|
    requires all == before + Hydrogens(Select(before, chosen), |before| + 1, kind, q)
    ensures GroupsStand(before, all, chosen)
    ensures plan.Complete() ==> GroupsStand(before, plan.RelabelAll(all), chosen)
  {
  }

  lemma KeptAre(before: seq<AtomView>, chosen: seq<nat>, kind: int, charges: Charges, all: seq<AtomView>)
    requires forall j :: 0 <= j < |chosen| ==> chosen[j] < |before|
    requires all == before + Hydrogens(Select(before, chosen), |before| + 1, kind, ChargeOf(charges, "H", 0.4))
    ensures LabelsKept(before, all, charges)
  {
    hide ChargeOf;
  }

  // Positions filtered in a longer listing.
  lemma FilteredAt(vs: seq<AtomView>, f: AtomView -> bool, k: nat) returns (i: nat)
    requires k < |vs| && f(vs[k])
    ensures i < |Positions(vs, f)| && Positions(vs, f)[i] == k && Filtered(vs, f)[i] == vs[k]
  {
    PositionsComplete(vs, f, k);
    i :| i < |Positions(vs, f)| && Positions(vs, f)[i] == k;
  }

  // The index in the candidate list of the nearest candidate, and the atom it stands for.
  lemma NearestInList(vs: seq<AtomView>, before: seq<AtomView>, o: nat, e: string, lx: real, ly: real, c: int)
    requires before <= vs && o < |before| && forall k :: |before| <= k < |vs| ==> vs[k].p.element != e
    requires 0 <= c < |Positions(vs, HasElement(e))|
    ensures var k := Positions(vs, HasElement(e))[c];
      k < |before| && (IsNearest(vs[o], Filtered(vs, HasElement(e)), lx, ly, 3.0, c) <==>
                       IsNearestOf(before, o, k, e, lx, ly))
  {
    hide PeriodicD2;
    var at, cs := Positions(vs, HasElement(e)), Filtered(vs, HasElement(e));
    assert HasElement(e)(vs[at[c]]);
    var k := at[c];
    if IsNearest(vs[o], cs, lx, ly, 3.0, c) {
      forall i | 0 <= i < |before| && before[i].p.element == e
        ensures PeriodicD2(before[o].p, before[k].p, lx, ly) < PeriodicD2(before[o].p, before[i].p, lx, ly)
          || (PeriodicD2(before[o].p, before[k].p, lx, ly) == PeriodicD2(before[o].p, before[i].p, lx, ly) && k <= i)
      {
        var d := FilteredAt(vs, HasElement(e), i);
        assert d < c ==> at[d] < at[c];
        assert c < d ==> at[c] < at[d];
      }
    }
    if IsNearestOf(before, o, k, e, lx, ly) {
      forall d | 0 <= d < |cs|
        ensures PeriodicD2(vs[o].p, cs[c].p, lx, ly) <= PeriodicD2(vs[o].p, cs[d].p, lx, ly)
        ensures d < c ==> PeriodicD2(vs[o].p, cs[c].p, lx, ly) < PeriodicD2(vs[o].p, cs[d].p, lx, ly)
      {
        assert HasElement(e)(vs[at[d]]);
        assert before[at[d]].p.element == e;
        assert d < c ==> at[d] < at[c];
      }
    }
  }

  /** The ids that the relabelling pass collects are those of the nearest structural cations. */
  lemma CationsAre(before: seq<AtomView>, all: seq<AtomView>, chosen: seq<nat>, e: string, lx: real, ly: real, k: nat)
    requires before <= all && Numbered(all) && k < |before|
    requires forall i :: |before| <= i < |all| ==> all[i].p.element != e
    requires forall j :: 0 <= j < |chosen| ==> chosen[j] < |before|
    ensures var oxygens := Filtered(all, HasId(IdsOf(Select(before, chosen))));
      var near := exists j :: 0 <= j < |chosen| && IsNearestOf(before, chosen[j], k, e, lx, ly);
      before[k].id in NearestIds(oxygens, Filtered(all, HasElement(e)), lx, ly, |oxygens|) <==> near
  {
    hide IsNearest, IsNearestOf, Filtered, Positions, IdsOf, Numbered;
    var ids, cands := IdsOf(Select(before, chosen)), Filtered(all, HasElement(e));
    var oxygens := Filtered(all, HasId(ids));
    if before[k].id in NearestIds(oxygens, cands, lx, ly, |oxygens|) {
      var a, c :| 0 <= a < |oxygens| && 0 <= c < |cands| && IsNearest(oxygens[a], cands, lx, ly, 3.0, c)
        && cands[c].id == before[k].id;
      var j := CationFound(before, all, chosen, e, lx, ly, k, a, c);
    }
    if exists j :: 0 <= j < |chosen| && IsNearestOf(before, chosen[j], k, e, lx, ly) {
      var j :| 0 <= j < |chosen| && IsNearestOf(before, chosen[j], k, e, lx, ly);
      var a, c := CationListed(before, all, chosen, e, lx, ly, k, j);
    }
  }

  lemma CationFound(before: seq<AtomView>, all: seq<AtomView>, chosen: seq<nat>, e: string, lx: real, ly: real, k: nat,
                    a: nat, c: nat)
    returns (j: nat)
    requires before <= all && Numbered(all) && k < |before|
    requires forall i :: |before| <= i < |all| ==> all[i].p.element != e
    requires forall j :: 0 <= j < |chosen| ==> chosen[j] < |before|
    requires var oxygens, cands := Filtered(all, HasId(IdsOf(Select(before, chosen)))), Filtered(all, HasElement(e));
      a < |oxygens| && c < |cands| && IsNearest(oxygens[a], cands, lx, ly, 3.0, c) && cands[c].id == before[k].id
    ensures j < |chosen| && IsNearestOf(before, chosen[j], k, e, lx, ly)
  {
    hide IsNearest, IsNearestOf;
    var ids := IdsOf(Select(before, chosen));
    var o := Positions(all, HasId(ids))[a];
    assert HasId(ids)(all[o]);
    j :| 0 <= j < |chosen| && Select(before, chosen)[j].id == all[o].id;
    assert all[chosen[j]] == before[chosen[j]];
    hide IdsOf;
    NearestInList(all, before, chosen[j], e, lx, ly, c);
  }

  lemma CationListed(before: seq<AtomView>, all: seq<AtomView>, chosen: seq<nat>, e: string, lx: real, ly: real, k: nat,
                     j: nat)
    returns (a: nat, c: nat)
    requires before <= all && Numbered(all) && k < |before|
    requires forall i :: |before| <= i < |all| ==> all[i].p.element != e
    requires forall j :: 0 <= j < |chosen| ==> chosen[j] < |before|
    requires j < |chosen| && IsNearestOf(before, chosen[j], k, e, lx, ly)
    ensures var oxygens, cands := Filtered(all, HasId(IdsOf(Select(before, chosen)))), Filtered(all, HasElement(e));
      a < |oxygens| && c < |cands| && IsNearest(oxygens[a], cands, lx, ly, 3.0, c) && cands[c].id == before[k].id
  {
    hide IsNearest, Filtered, Positions;
    var o := chosen[j];
    assert Select(before, chosen)[j] == before[o] == all[o];
    var ids := IdsOf(Select(before, chosen));
    a := FilteredAt(all, HasId(ids), o);
    NearestHasElement(before, o, k, e, lx, ly);
    hide IsNearestOf, IdsOf;
    c := FilteredAt(all, HasElement(e), k);
    assert |Filtered(all, HasElement(e))| == |Positions(all, HasElement(e))| by { FilteredLength(all, HasElement(e)); }
    FilteredLength(all, HasId(ids));
    NearestInList(all, before, o, e, lx, ly, c);
  }

  lemma FilteredLength(vs: seq<AtomView>, f: AtomView -> bool)
    ensures |Filtered(vs, f)| == |Positions(vs, f)|
  {
  }

  lemma NearestHasElement(vs: seq<AtomView>, o: nat, k: nat, e: string, lx: real, ly: real)
    requires o < |vs| && k < |vs| && IsNearestOf(vs, o, k, e, lx, ly)
    ensures vs[k].p.element == e
  {
  }

  lemma ChangedAre(before: seq<AtomView>, chosen: seq<nat>, kind: int, charges: Charges, all: seq<AtomView>, plan: Plan,
                   types: map<string, int>, lx: real, ly: real, maxId: int, cation: Option<string>)
    requires Numbered(before) && (forall j :: 0 <= j < |chosen| ==> chosen[j] < |before|)
    requires all == before + Hydrogens(Select(before, chosen), |before| + 1, kind, ChargeOf(charges, "H", 0.4))
    requires IsPlan(plan, all, types, IdsOf(Select(before, chosen)), charges, lx, ly, maxId, cation) && plan.Complete()
    requires IsStructural(charges, cation)
    ensures LabelsChanged(before, plan.RelabelAll(all), chosen, cation, charges, lx, ly)
  {
    hide NearestIds, Filtered, IsNearestOf, ChargeOf, Hydrogens, IdsOf;
    HydrogensAre(before, chosen, kind, charges, all);
    forall k | 0 <= k < |before|
      ensures IsRelabelled(before, plan.RelabelAll(all)[k].p, chosen, k, cation, charges, lx, ly)
    {
      if cation.Some? {
        CationsAre(before, all, chosen, cation.value, lx, ly, k);
      }
      ChosenById(before, chosen, k);
      assert plan.RelabelAll(all)[k] == plan.Relabel(before[k]);
      if cation.Some? && before[k].id in plan.cations {
        CationElement(before, chosen, k, cation.value, lx, ly);
      }
    }
  }

  lemma CationElement(before: seq<AtomView>, chosen: seq<nat>, k: nat, e: string, lx: real, ly: real)
    requires k < |before| && forall j :: 0 <= j < |chosen| ==> chosen[j] < |before|
    requires exists j :: 0 <= j < |chosen| && IsNearestOf(before, chosen[j], k, e, lx, ly)
    ensures before[k].p.element == e
  {
  }

  lemma ChosenById(before: seq<AtomView>, chosen: seq<nat>, k: nat)
    requires Numbered(before) && k < |before| && forall j :: 0 <= j < |chosen| ==> chosen[j] < |before|
    ensures before[k].id in IdsOf(Select(before, chosen)) <==> k in chosen
  {
    if k in chosen {
      var j :| 0 <= j < |chosen| && chosen[j] == k;
      assert Select(before, chosen)[j] == before[k];
    }
  }

  lemma HydrogensAre(before: seq<AtomView>, chosen: seq<nat>, kind: int, charges: Charges, all: seq<AtomView>)
    requires Numbered(before) && forall j :: 0 <= j < |chosen| ==> chosen[j] < |before|
    requires all == before + Hydrogens(Select(before, chosen), |before| + 1, kind, ChargeOf(charges, "H", 0.4))
    ensures Numbered(all) && before <= all
    ensures forall i :: |before| <= i < |all| ==> all[i].p.element == "H"
  {
    hide ChargeOf;
  }

  /** What the two passes leave is a hydroxylation. */
  lemma HydroxylationIs(before: seq<AtomView>, types: map<string, int>, density: real, lx: real, ly: real,
                        charges: Charges, choose: (nat, nat) -> seq<nat>, chosen: seq<nat>, all: seq<AtomView>,
                        after: seq<AtomView>, plan: Plan, maxId: int, cation: Option<string>)
    requires before != [] && IsChooser(choose) && Numbered(before)
    requires chosen == Chosen(before, choose, Wanted(density, lx, ly))
    requires all == GrownAtoms(before, types, Select(before, chosen), charges)
    requires if chosen == [] || !HasCharge(charges, "O") then after == all
             else
               && IsPlan(plan, all, GrownTypes(before, types), IdsOf(Select(before, chosen)), charges, lx, ly, maxId,
                         cation)
               && plan.Complete() && IsStructural(charges, cation) && after == plan.RelabelAll(all)
    ensures IsHydroxylation(before, after, chosen, cation, density, charges, lx, ly)
  {
    hide IsPlan, IsChoice, GroupsStand, LabelsKept, LabelsChanged, IsStructural, Hydrogens, GrownTypes, Chosen, Wanted,
        ChargeOf, HasCharge, Plan.RelabelAll, Plan.Complete, IdsOf;
    ChoiceIs(before, choose, density, lx, ly);
    var grown := GrownTypes(before, types);
    var kind := if "H" in grown then grown["H"] else 0;
    GroupsAre(before, chosen, kind, ChargeOf(charges, "H", 0.4), all, plan);
    if chosen == [] || !HasCharge(charges, "O") {
      KeptAre(before, chosen, kind, charges, all);
    } else {
      ChangedAre(before, chosen, kind, charges, all, plan, grown, lx, ly, maxId, cation);
    }
  }

  /** The total charge after the passes. */
  lemma TotalIs(before: seq<AtomView>, types: map<string, int>, charges: Charges, chosen: seq<nat>, all: seq<AtomView>,
                after: seq<AtomView>, plan: Plan, lx: real, ly: real, maxId: int, cation: Option<string>)
    requires before != [] && Numbered(before) && AsBuilt(before, charges) && Distinct(chosen)
    requires forall j :: 0 <= j < |chosen| ==> chosen[j] < |before| && before[chosen[j]].p.element == "O"
    requires all == GrownAtoms(before, types, Select(before, chosen), charges)
    requires if chosen == [] || !HasCharge(charges, "O") then after == all
             else
               && IsPlan(plan, all, GrownTypes(before, types), IdsOf(Select(before, chosen)), charges, lx, ly, maxId,
                         cation)
               && plan.Complete() && after == plan.RelabelAll(all)
    ensures Total(after) == Total(before) + ChargeAdded(before, |chosen|, charges)
  {
    hide *;
    var grown, oxygens := GrownTypes(before, types), Select(before, chosen);
    var kind := if "H" in grown then grown["H"] else 0;
    var ids := IdsOf(oxygens);
    ChosenIds(before, chosen);
    SelectSize(before, chosen);
    GrownAre(before, types, oxygens, charges);
    if chosen == [] || !HasCharge(charges, "O") {
      var qH := ChargeOf(charges, "H", 0.4);
      var idle := Plan(ids, {}, None, map["Hoh" := 0, "Os" := 0], qH, ChargeOf(charges, "O", 0.0) - qH);
      IdleComplete(idle);
      HydroxylatedIs(before, oxygens, kind, charges, idle);
      TotalOf(before, oxygens, kind, charges, idle, after);
    } else {
      PlanQh(plan, all, grown, ids, charges, lx, ly, maxId, cation);
      HydroxylatedIs(before, oxygens, kind, charges, plan);
      TotalOf(before, oxygens, kind, charges, plan, after);
    }
  }

  lemma IdleComplete(plan: Plan)
    requires plan.types == map["Hoh" := 0, "Os" := 0] && plan.surfaceLabel == None
    ensures plan.Complete()
  {
  }

  lemma SelectSize(vs: seq<AtomView>, at: seq<nat>)
    requires forall k :: 0 <= k < |at| ==> at[k] < |vs|
    ensures |Select(vs, at)| == |at|
  {
  }

  lemma HydroxylatedIs(base: seq<AtomView>, oxygens: seq<AtomView>, hKind: int, charges: Charges, plan: Plan)
    requires plan.Complete()
    ensures var all := base + Hydrogens(oxygens, |base| + 1, hKind, ChargeOf(charges, "H", 0.4));
      Hydroxylated(base, oxygens, hKind, charges, plan)
        == if oxygens == [] || !HasCharge(charges, "O") then all else plan.RelabelAll(all)
  {
  }

  lemma TotalOf(base: seq<AtomView>, oxygens: seq<AtomView>, hKind: int, charges: Charges, plan: Plan,
                after: seq<AtomView>)
    requires AsBuilt(base, charges) && plan.Complete()
    requires ChosenOxygens(base, plan.chosen) && |plan.chosen| == |oxygens|
    requires plan.qH == ChargeOf(charges, "H", 0.4) && plan.qOs == ChargeOf(charges, "O", 0.0) - plan.qH
    requires after == Hydroxylated(base, oxygens, hKind, charges, plan)
    ensures Total(after) == Total(base) + ChargeAdded(base, |oxygens|, charges)
  {
    hide *;
    HydroxylationCharge(base, oxygens, hKind, charges, plan);
    AddedIs(base, |oxygens|, charges, ChargeOf(charges, "H", 0.4));
  }

  lemma AddedIs(base: seq<AtomView>, n: nat, charges: Charges, qH: real)
    requires qH == ChargeOf(charges, "H", 0.4)
    ensures ChargeAdded(base, n, charges)
      == if n == 0 then 0.0 else if !HasCharge(charges, "O") then n as real * qH
         else if HasCharge(charges, "H") then 0.0 else CountOf(base, "H") as real * 0.4
  {
  }

  lemma GrownAre(before: seq<AtomView>, types: map<string, int>, oxygens: seq<AtomView>, charges: Charges)
    requires before != []
    ensures var grown := GrownTypes(before, types);
      var kind := if "H" in grown then grown["H"] else 0;
      GrownAtoms(before, types, oxygens, charges)
        == before + Hydrogens(oxygens, |before| + 1, kind, ChargeOf(charges, "H", 0.4))
  {
  }

  lemma PlanQh(plan: Plan, vs: seq<AtomView>, types: map<string, int>, ids: set<int>, charges: Charges, lx: real,
               ly: real, maxId: int, cation: Option<string>)
    ensures IsPlan(plan, vs, types, ids, charges, lx, ly, maxId, cation) ==>
      && plan.chosen == ids
      && plan.qH == ChargeOf(charges, "H", 0.4) && plan.qOs == ChargeOf(charges, "O", 0.0) - plan.qH
  {
    hide NearestIds, Filtered, ChargeOf, FinalTypes;
  }
}
