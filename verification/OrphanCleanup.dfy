/** Reconciling metric rows with the experiments they refer to, and the reference counts of the array artifacts. */
module OrphanCleanup {
  import opened Common

  datatype Metric = Metric(id: int, expId: string, experimentId: Option<int>, artifactId: Option<int>, filePath: string)

  datatype Artifact = Artifact(refCount: int, storagePath: string)

  datatype Report = Report(recovered: nat, deleted: nat, unresolved: nat, deferred: seq<string>, warned: seq<int>)

  // The experiments table, exp_id to primary key, and the names and keys that the caller considers valid.
  datatype Experiments = Experiments(table: map<string, int>, names: set<string>, keys: set<int>)

  // ---------------------------------------------------------------- the four filters

  // A guard that is off leaves a filter of the program out; then the first three cases select nothing.
  predicate UnknownName(exps: Experiments, m: Metric) {
    exps.names != {} ==> m.expId !in exps.names
  }

  // Case 1: valid name, no key.
  predicate LacksKey(exps: Experiments, m: Metric) {
    exps.names != {} && m.expId in exps.names && m.experimentId.None?
  }

  // Case 2: valid name and some key; the loop then compares the key.
  predicate HasKey(exps: Experiments, m: Metric) {
    exps.names != {} && m.expId in exps.names && m.experimentId.Some?
  }

  predicate KeyDiffers(exps: Experiments, m: Metric) {
    m.expId in exps.table && m.experimentId != Some(exps.table[m.expId])
  }

  // Case 3: unknown name, valid key.
  predicate StaleName(exps: Experiments, m: Metric) {
    exps.keys != {} && UnknownName(exps, m) && m.experimentId.Some? && m.experimentId.value in exps.keys
  }

  // Case 4: neither.
  predicate TrueOrphan(exps: Experiments, m: Metric) {
    UnknownName(exps, m) && (exps.keys != {} ==> m.experimentId.None? || m.experimentId.value !in exps.keys)
  }

  function Keyed(exps: Experiments): Metric -> bool {
    m => HasKey(exps, m)
  }

  function Differing(exps: Experiments): Metric -> bool {
    m => KeyDiffers(exps, m)
  }

  function Stale(exps: Experiments): Metric -> bool {
    m => StaleName(exps, m)
  }

  function Orphans(exps: Experiments): Metric -> bool {
    m => TrueOrphan(exps, m)
  }

  function Survivors(exps: Experiments): Metric -> bool {
    m => !TrueOrphan(exps, m)
  }

  /** A row meets one of the four filters and no other, whatever names and keys are valid. */
  lemma FiltersExclusive(exps: Experiments, m: Metric)
    ensures !(LacksKey(exps, m) && HasKey(exps, m)) && !(StaleName(exps, m) && TrueOrphan(exps, m))
    ensures LacksKey(exps, m) || HasKey(exps, m) ==> !StaleName(exps, m) && !TrueOrphan(exps, m)
    ensures LacksKey(exps, m) || HasKey(exps, m) || StaleName(exps, m) || TrueOrphan(exps, m)
  {
    assert m.expId in exps.names ==> exps.names != {};
  }

  datatype Fate = Healthy | Recovered | Mismatched | StaleExpId | Deleted

  // What becomes of a row. A valid name without an experiment is left alone.
  function FateOf(exps: Experiments, m: Metric): Fate {
    if m.expId in exps.names then
      if m.expId !in exps.table then Healthy
      else if m.experimentId.None? then Recovered
      else if m.experimentId.value != exps.table[m.expId] then Mismatched
      else Healthy
    else if m.experimentId.Some? && m.experimentId.value in exps.keys then StaleExpId
    else Deleted
  }

  /** The four filters, with the tests in their loops, find exactly the rows of the four fates. */
  lemma FiltersAreFates(exps: Experiments, m: Metric)
    ensures LacksKey(exps, m) && m.expId in exps.table <==> FateOf(exps, m).Recovered?
    ensures HasKey(exps, m) && KeyDiffers(exps, m) <==> FateOf(exps, m).Mismatched?
    ensures StaleName(exps, m) <==> FateOf(exps, m).StaleExpId?
    ensures TrueOrphan(exps, m) <==> FateOf(exps, m).Deleted?
  {
    assert m.expId in exps.names ==> exps.names != {};
    assert m.experimentId.Some? && m.experimentId.value in exps.keys ==> exps.keys != {};
  }

  // The rows a filter lets through, in table order.
  function Where(ms: seq<Metric>, f: Metric -> bool): seq<Metric> {
    if ms == [] then []
    else
      var k := |ms| - 1;
      if f(ms[k]) then Where(ms[..k], f) + [ms[k]] else Where(ms[..k], f)
  }

  function With(exps: Experiments, ms: seq<Metric>, fates: set<Fate>): seq<Metric> {
    if ms == [] then []
    else
      var k := |ms| - 1;
      var rest := With(exps, ms[..k], fates);
      if FateOf(exps, ms[k]) in fates then rest + [ms[k]] else rest
  }

  function Ids(ms: seq<Metric>): (ids: seq<int>)
    ensures |ids| == |ms|
  {
    seq(|ms|, k requires 0 <= k < |ms| => ms[k].id)
  }

  function Repaired(exps: Experiments, m: Metric): Metric {
    if FateOf(exps, m).Recovered? then m.(experimentId := Some(exps.table[m.expId])) else m
  }

  function RepairAll(exps: Experiments, ms: seq<Metric>): (r: seq<Metric>)
    ensures |r| == |ms|
    ensures forall k :: 0 <= k < |ms| ==> r[k] == Repaired(exps, ms[k])
  {
    seq(|ms|, k requires 0 <= k < |ms| => Repaired(exps, ms[k]))
  }

  // The metrics table after an applied run.
  function Kept(exps: Experiments, ms: seq<Metric>): seq<Metric> {
    With(exps, RepairAll(exps, ms), {Healthy, Mismatched, StaleExpId})
  }

  // An artifact reference that the program sees: neither null nor zero.
  predicate Refers(m: Metric, a: int) {
    m.artifactId == Some(a) && a != 0
  }

  function RefsIn(ms: seq<Metric>, a: int): nat {
    if ms == [] then 0
    else var k := |ms| - 1; RefsIn(ms[..k], a) + if Refers(ms[k], a) then 1 else 0
  }

  // All references, including those to artifact 0.
  function TrueRefsIn(ms: seq<Metric>, a: int): nat {
    if ms == [] then 0
    else var k := |ms| - 1; TrueRefsIn(ms[..k], a) + if ms[k].artifactId == Some(a) then 1 else 0
  }

  // max(0, (ref_count or 1) - count)
  function Reduced(refCount: int, count: nat): nat {
    Max(0, (if refCount == 0 then 1 else refCount) - count)
  }

  // The artifacts referred to by deleted rows, in order of first occurrence.
  function Referred(ms: seq<Metric>): seq<int> {
    if ms == [] then []
    else
      var k := |ms| - 1;
      var keys := Referred(ms[..k]);
      if ms[k].artifactId.Some? && ms[k].artifactId.value != 0 && ms[k].artifactId.value !in keys
      then keys + [ms[k].artifactId.value] else keys
  }

  // Deleted rows without an artifact leave their legacy file to be removed.
  function LegacyFiles(ms: seq<Metric>): seq<string> {
    if ms == [] then []
    else
      var k := |ms| - 1;
      LegacyFiles(ms[..k]) +
      if (ms[k].artifactId.Some? && ms[k].artifactId.value != 0) || ms[k].filePath == "" then [] else [ms[k].filePath]
  }

  // Taking the references of the deleted rows off one artifact.
  function Released(artifacts: map<int, Artifact>, gone: seq<Metric>, a: int): map<int, Artifact> {
    if a !in artifacts then artifacts
    else
      var left := Reduced(artifacts[a].refCount, RefsIn(gone, a));
      if left == 0 then artifacts - {a} else artifacts[a := artifacts[a].(refCount := left)]
  }

  function ReleaseAll(artifacts: map<int, Artifact>, gone: seq<Metric>, keys: seq<int>): map<int, Artifact> {
    if keys == [] then artifacts
    else Released(ReleaseAll(artifacts, gone, keys[..|keys| - 1]), gone, keys[|keys| - 1])
  }

  predicate IsDropped(artifact: Artifact, gone: seq<Metric>, a: int) {
    Reduced(artifact.refCount, RefsIn(gone, a)) == 0
  }

  // The storage paths of the artifacts that are dropped.
  function DroppedFiles(artifacts: map<int, Artifact>, gone: seq<Metric>, keys: seq<int>): seq<string> {
    if keys == [] then []
    else
      var k := |keys| - 1;
      var a := keys[k];
      DroppedFiles(artifacts, gone, keys[..k]) +
      if a in artifacts && IsDropped(artifacts[a], gone, a) && artifacts[a].storagePath != ""
      then [artifacts[a].storagePath] else []
  }

  function ReportOf(exps: Experiments, ms: seq<Metric>, artifacts: map<int, Artifact>, apply: bool): Report {
    var gone := With(exps, ms, {Deleted});
    Report(|With(exps, ms, {Recovered})|, |gone|, |With(exps, ms, {Mismatched})| + |With(exps, ms, {StaleExpId})|,
           LegacyFiles(gone) + (if apply then DroppedFiles(artifacts, gone, Referred(gone)) else []),
           Ids(With(exps, ms, {Mismatched})) + Ids(With(exps, ms, {StaleExpId})))
  }

  function ArtifactsAfter(exps: Experiments, ms: seq<Metric>, artifacts: map<int, Artifact>): map<int, Artifact> {
    var gone := With(exps, ms, {Deleted});
    ReleaseAll(artifacts, gone, Referred(gone))
  }

  // ---------------------------------------------------------------- the transaction

  // The counter over the artifact references of the deleted rows, and their legacy files.
  method CountReferences(gone: seq<Metric>) returns (keys: seq<int>, counts: map<int, nat>, files: seq<string>)
    ensures keys == Referred(gone) && files == LegacyFiles(gone)
    ensures forall a :: a in keys ==> a in counts && counts[a] == RefsIn(gone, a)
  {
    keys, counts, files := [], map[], [];
    for i := 0 to |gone|
      invariant keys == Referred(gone[..i]) && files == LegacyFiles(gone[..i])
      invariant forall a :: a in keys <==> a in counts
      invariant forall a :: RefsIn(gone[..i], a) == if a in counts then counts[a] else 0
    {
      assert gone[..i + 1][..i] == gone[..i];
      var m := gone[i];
      if m.artifactId.Some? && m.artifactId.value != 0 {
        var a := m.artifactId.value;
        if a !in keys {
          keys := keys + [a];
        }
        counts := counts[a := (if a in counts then counts[a] else 0) + 1];
      } else if m.filePath != "" {
        files := files + [m.filePath];
      }
    }
    assert gone[..|gone|] == gone;
  }

  // A loop over rows that acts on some of them.
  method Filter(ms: seq<Metric>, f: Metric -> bool) returns (rows: seq<Metric>)
    ensures rows == Where(ms, f)
  {
    rows := [];
    for i := 0 to |ms|
      invariant rows == Where(ms[..i], f)
    {
      assert ms[..i + 1][..i] == ms[..i];
      if f(ms[i]) {
        rows := rows + [ms[i]];
      }
    }
    assert ms[..|ms|] == ms;
  }

  class Database {
    var experiments: Experiments
    var metrics: seq<Metric>
    var artifacts: map<int, Artifact>

    // session.query(...).filter(...).all() on the current rows.
    method Select(f: Metric -> bool) returns (rows: seq<Metric>)
      ensures rows == Where(metrics, f)
    {
      rows := Filter(metrics, f);
    }

    // Case 1: the experiment id is missing and can be looked up.
    method Recover(apply: bool) returns (recovered: nat)
      modifies `metrics
      ensures recovered == |With(experiments, old(metrics), {Fate.Recovered})|
      ensures metrics == if apply then RepairAll(experiments, old(metrics)) else old(metrics)
    {
      recovered := 0;
      ghost var before := metrics;
      for i := 0 to |metrics|
        invariant |metrics| == |before|
        invariant forall k :: 0 <= k < i ==> metrics[k] == if apply then Repaired(experiments, before[k]) else before[k]
        invariant forall k :: i <= k < |before| ==> metrics[k] == before[k]
        invariant recovered == |With(experiments, before[..i], {Fate.Recovered})|
      {
        assert before[..i + 1][..i] == before[..i];
        var m := metrics[i];
        FiltersAreFates(experiments, m);
        if LacksKey(experiments, m) && m.expId in experiments.table {
          if apply {
            metrics := metrics[i := m.(experimentId := Some(experiments.table[m.expId]))];
          }
          recovered := recovered + 1;
        }
      }
      assert before[..|before|] == before;
    }

    // Case 4, artifacts: take the deleted references off, drop what nobody refers to.
    method Release(gone: seq<Metric>, keys: seq<int>, counts: map<int, nat>) returns (files: seq<string>)
      requires keys == Referred(gone) && forall a :: a in keys ==> a in counts && counts[a] == RefsIn(gone, a)
      modifies `artifacts
      ensures artifacts == ReleaseAll(old(artifacts), gone, keys)
      ensures files == DroppedFiles(old(artifacts), gone, keys)
    {
      files := [];
      ghost var before := artifacts;
      ReferredDistinct(gone);
      for i := 0 to |keys|
        invariant artifacts == ReleaseAll(before, gone, keys[..i])
        invariant files == DroppedFiles(before, gone, keys[..i])
        invariant forall j :: i <= j < |keys| ==> SameEntry(artifacts, before, keys[j])
      {
        hide Referred, RefsIn;
        var a := keys[i];
        assert keys[..i + 1][..i] == keys[..i];
        assert SameEntry(artifacts, before, a);
        if a in artifacts {
          var left := Reduced(artifacts[a].refCount, counts[a]);
          if left == 0 {
            if artifacts[a].storagePath != "" {
              files := files + [artifacts[a].storagePath];
            }
            artifacts := artifacts - {a};
          } else {
            artifacts := artifacts[a := artifacts[a].(refCount := left)];
          }
        }
      }
      assert keys[..|keys|] == keys;
    }

    /** The whole cleanup of the metrics table.  A dry run changes nothing. */
    method Cleanup(apply: bool) returns (report: Report)
      modifies `metrics, `artifacts
      ensures report == ReportOf(experiments, old(metrics), old(artifacts), apply)
      ensures apply ==>
        && metrics == Kept(experiments, old(metrics))
        && artifacts == ArtifactsAfter(experiments, old(metrics), old(artifacts))
      ensures !apply ==> metrics == old(metrics) && artifacts == old(artifacts)
    {
      hide With, Where, FateOf, RepairAll, LegacyFiles, DroppedFiles, ReleaseAll, Referred, Keyed, Differing,
          Stale, Orphans, Survivors;
      var exps := experiments;
      ghost var before := metrics;
      var recovered := Recover(apply);
      RepairKeepsFates(exps, before);
      FilteredRows(exps, metrics);
      var keyed := Select(Keyed(exps));
      var mismatched := Filter(keyed, Differing(exps));
      var stale := Select(Stale(exps));
      var gone := Select(Orphans(exps));
      var keys, counts, deferred := CountReferences(gone);
      if apply {
        var files := Release(gone, keys, counts);
        deferred := deferred + files;
        var kept := Select(Survivors(exps));
        metrics := kept;
      }
      report := Report(recovered, |gone|, |mismatched| + |stale|, deferred, Ids(mismatched) + Ids(stale));
    }
  }

  // The filtered rows are those of the fates.
  lemma FilteredRows(exps: Experiments, ms: seq<Metric>)
    ensures Where(Where(ms, Keyed(exps)), Differing(exps)) == With(exps, ms, {Mismatched})
    ensures Where(ms, Stale(exps)) == With(exps, ms, {StaleExpId})
    ensures Where(ms, Orphans(exps)) == With(exps, ms, {Deleted})
    ensures (forall k :: 0 <= k < |ms| ==> !FateOf(exps, ms[k]).Recovered?) ==>
      Where(ms, Survivors(exps)) == With(exps, ms, {Healthy, Mismatched, StaleExpId})
  {
    hide FateOf, StaleName, TrueOrphan, Where, With;
    forall k | 0 <= k < |ms| {
      FiltersAreFates(exps, ms[k]);
    }
    MismatchedRows(exps, ms);
    WhereIsWith(exps, ms, Stale(exps), {StaleExpId});
    WhereIsWith(exps, ms, Orphans(exps), {Deleted});
    if forall k :: 0 <= k < |ms| ==> !FateOf(exps, ms[k]).Recovered? {
      WhereIsWith(exps, ms, Survivors(exps), {Healthy, Mismatched, StaleExpId});
    }
  }

  lemma {:induction false} WhereIsWith(exps: Experiments, ms: seq<Metric>, f: Metric -> bool, fates: set<Fate>)
    requires forall k :: 0 <= k < |ms| ==> (f(ms[k]) <==> FateOf(exps, ms[k]) in fates)
    ensures Where(ms, f) == With(exps, ms, fates)
  {
    hide FateOf;
    if ms != [] {
      WhereIsWith(exps, ms[..|ms| - 1], f, fates);
    }
  }

  lemma {:induction false} MismatchedRows(exps: Experiments, ms: seq<Metric>)
    ensures Where(Where(ms, Keyed(exps)), Differing(exps)) == With(exps, ms, {Mismatched})
  {
    hide FateOf, HasKey, KeyDiffers;
    if ms != [] {
      var k := |ms| - 1;
      MismatchedRows(exps, ms[..k]);
      FiltersAreFates(exps, ms[k]);
      WhereSnoc(Where(ms[..k], Keyed(exps)), ms[k], Differing(exps));
    }
  }

  lemma WhereSnoc(ms: seq<Metric>, m: Metric, f: Metric -> bool)
    ensures Where(ms + [m], f) == if f(m) then Where(ms, f) + [m] else Where(ms, f)
  {
    assert (ms + [m])[..|ms|] == ms;
  }

  predicate SameEntry(xs: map<int, Artifact>, ys: map<int, Artifact>, a: int) {
    (a in xs <==> a in ys) && (a in xs ==> xs[a] == ys[a])
  }

  lemma {:induction false} ReferredDistinct(ms: seq<Metric>)
    ensures Distinct(Referred(ms))
    ensures forall a :: a in Referred(ms) <==> RefsIn(ms, a) > 0
  {
    if ms != [] {
      ReferredDistinct(ms[..|ms| - 1]);
    }
  }

  // ---------------------------------------------------------------- repairing changes no other case

  lemma RepairOne(exps: Experiments, m: Metric)
    ensures var f := FateOf(exps, m);
      FateOf(exps, Repaired(exps, m)) == if f.Recovered? then Healthy else f
  {
  }

  lemma {:induction false} RepairWith(exps: Experiments, ms: seq<Metric>, fates: set<Fate>)
    requires Fate.Recovered !in fates && Healthy !in fates
    ensures With(exps, RepairAll(exps, ms), fates) == With(exps, ms, fates)
  {
    if ms != [] {
      var k := |ms| - 1;
      RepairWith(exps, ms[..k], fates);
      RepairOne(exps, ms[k]);
      assert RepairAll(exps, ms)[..k] == RepairAll(exps, ms[..k]);
    }
  }

  lemma RepairKeepsFates(exps: Experiments, ms: seq<Metric>)
    ensures With(exps, RepairAll(exps, ms), {Mismatched}) == With(exps, ms, {Mismatched})
    ensures With(exps, RepairAll(exps, ms), {StaleExpId}) == With(exps, ms, {StaleExpId})
    ensures With(exps, RepairAll(exps, ms), {Deleted}) == With(exps, ms, {Deleted})
    ensures forall k :: 0 <= k < |ms| ==> !FateOf(exps, RepairAll(exps, ms)[k]).Recovered?
  {
    forall k | 0 <= k < |ms| {
      RepairOne(exps, ms[k]);
    }
    RepairWith(exps, ms, {Mismatched});
    RepairWith(exps, ms, {StaleExpId});
    RepairWith(exps, ms, {Deleted});
  }

  // ---------------------------------------------------------------- partition

  /** Every row has exactly one fate: the four reported groups and the healthy rows add up to the table. */
  lemma FatesPartition(exps: Experiments, ms: seq<Metric>, artifacts: map<int, Artifact>, apply: bool)
    ensures var r := ReportOf(exps, ms, artifacts, apply);
      |With(exps, ms, {Healthy})| + r.recovered + r.unresolved + r.deleted == |ms|
    ensures |Kept(exps, ms)| == |ms| - ReportOf(exps, ms, artifacts, apply).deleted
  {
    FateCounts(exps, ms);
    FateCounts(exps, RepairAll(exps, ms));
    RepairKeepsFates(exps, ms);
  }

  lemma {:induction false} FateCounts(exps: Experiments, ms: seq<Metric>)
    ensures |With(exps, ms, {Healthy})| + |With(exps, ms, {Fate.Recovered})| + |With(exps, ms, {Mismatched})|
      + |With(exps, ms, {StaleExpId})| + |With(exps, ms, {Deleted})| == |ms|
    ensures |With(exps, ms, {Healthy, Mismatched, StaleExpId})|
      == |With(exps, ms, {Healthy})| + |With(exps, ms, {Mismatched})| + |With(exps, ms, {StaleExpId})|
    ensures (forall k :: 0 <= k < |ms| ==> !FateOf(exps, ms[k]).Recovered?) ==> |With(exps, ms, {Fate.Recovered})| == 0
  {
    if ms != [] {
      FateCounts(exps, ms[..|ms| - 1]);
    }
  }

  // ---------------------------------------------------------------- idempotence and dry runs

  lemma WithSnoc(exps: Experiments, ms: seq<Metric>, m: Metric, fates: set<Fate>)
    ensures With(exps, ms + [m], fates)
      == if FateOf(exps, m) in fates then With(exps, ms, fates) + [m] else With(exps, ms, fates)
  {
    assert (ms + [m])[..|ms|] == ms;
  }

  lemma TrueRefsSnoc(ms: seq<Metric>, m: Metric, a: int)
    ensures TrueRefsIn(ms + [m], a) == TrueRefsIn(ms, a) + if m.artifactId == Some(a) then 1 else 0
  {
    assert (ms + [m])[..|ms|] == ms;
  }

  lemma {:induction false} WithWith(exps: Experiments, ms: seq<Metric>, f: set<Fate>, g: set<Fate>)
    ensures With(exps, With(exps, ms, f), g) == With(exps, ms, f * g)
  {
    if ms != [] {
      var k := |ms| - 1;
      WithWith(exps, ms[..k], f, g);
      WithSnoc(exps, With(exps, ms[..k], f), ms[k], g);
      assert FateOf(exps, ms[k]) in f * g <==> FateOf(exps, ms[k]) in f && FateOf(exps, ms[k]) in g;
    }
  }

  lemma {:induction false} WithNone(exps: Experiments, ms: seq<Metric>)
    ensures With(exps, ms, {}) == []
  {
    if ms != [] {
      WithNone(exps, ms[..|ms| - 1]);
    }
  }

  lemma {:induction false} RepairNothing(exps: Experiments, ms: seq<Metric>)
    requires With(exps, ms, {Fate.Recovered}) == []
    ensures RepairAll(exps, ms) == ms
  {
    if ms != [] {
      var k := |ms| - 1;
      RepairNothing(exps, ms[..k]);
      assert RepairAll(exps, ms)[..k] == RepairAll(exps, ms[..k]);
      assert ms == ms[..k] + [ms[k]];
    }
  }

  lemma KeptFates(exps: Experiments, ms: seq<Metric>, fates: set<Fate>)
    ensures With(exps, Kept(exps, ms), fates)
      == With(exps, RepairAll(exps, ms), {Healthy, Mismatched, StaleExpId} * fates)
  {
    WithWith(exps, RepairAll(exps, ms), {Healthy, Mismatched, StaleExpId}, fates);
  }

  /** A second applied run recovers and deletes nothing, reports the same unresolved rows, and changes nothing. */
  lemma CleanupIdempotent(exps: Experiments, ms: seq<Metric>, artifacts: map<int, Artifact>)
    ensures var ms', artifacts' := Kept(exps, ms), ArtifactsAfter(exps, ms, artifacts);
      var first, second := ReportOf(exps, ms, artifacts, true), ReportOf(exps, ms', artifacts', true);
      && Kept(exps, ms') == ms' && ArtifactsAfter(exps, ms', artifacts') == artifacts'
      && second == Report(0, 0, first.unresolved, [], first.warned)
  {
    hide With, RepairAll, FateOf;
    var ms' := Kept(exps, ms);
    var all := {Healthy, Mismatched, StaleExpId};
    KeptFates(exps, ms, {Fate.Recovered});
    KeptFates(exps, ms, {Deleted});
    KeptFates(exps, ms, {Mismatched});
    KeptFates(exps, ms, {StaleExpId});
    KeptFates(exps, ms, all);
    assert all * {Fate.Recovered} == {} && all * {Deleted} == {} && all * all == all;
    assert all * {Mismatched} == {Mismatched} && all * {StaleExpId} == {StaleExpId};
    WithNone(exps, RepairAll(exps, ms));
    RepairKeepsFates(exps, ms);
    RepairNothing(exps, ms');
  }

  /** A dry run reports the counts and rows of the applied run; only the files of dropped artifacts are missing. */
  lemma DryRunFaithful(exps: Experiments, ms: seq<Metric>, artifacts: map<int, Artifact>)
    ensures var dry, wet := ReportOf(exps, ms, artifacts, false), ReportOf(exps, ms, artifacts, true);
      && (dry.recovered, dry.deleted, dry.unresolved, dry.warned)
          == (wet.recovered, wet.deleted, wet.unresolved, wet.warned)
      && dry.deferred <= wet.deferred
  {
    hide With, LegacyFiles, DroppedFiles;
  }

  // ---------------------------------------------------------------- reference counts

  /** Every artifact counts the metric rows that refer to it. */
  ghost predicate RefCountsExact(ms: seq<Metric>, artifacts: map<int, Artifact>) {
    forall a :: a in artifacts ==> artifacts[a].refCount == TrueRefsIn(ms, a)
  }

  lemma {:induction false} SeenRefs(ms: seq<Metric>, a: int)
    ensures RefsIn(ms, a) == if a == 0 then 0 else TrueRefsIn(ms, a)
  {
    if ms != [] {
      SeenRefs(ms[..|ms| - 1], a);
    }
  }

  lemma KeptSnoc(exps: Experiments, ms: seq<Metric>)
    requires ms != []
    ensures var k := |ms| - 1;
      Kept(exps, ms) == if FateOf(exps, ms[k]).Deleted? then Kept(exps, ms[..k])
                        else Kept(exps, ms[..k]) + [Repaired(exps, ms[k])]
  {
    var k := |ms| - 1;
    RepairOne(exps, ms[k]);
    assert RepairAll(exps, ms)[..k] == RepairAll(exps, ms[..k]);
  }

  lemma {:induction false} RefsSplit(exps: Experiments, ms: seq<Metric>, a: int)
    ensures TrueRefsIn(Kept(exps, ms), a) + TrueRefsIn(With(exps, ms, {Deleted}), a) == TrueRefsIn(ms, a)
  {
    if ms != [] {
      hide Kept, FateOf;
      var k := |ms| - 1;
      RefsSplit(exps, ms[..k], a);
      KeptSnoc(exps, ms);
      TrueRefsSnoc(Kept(exps, ms[..k]), Repaired(exps, ms[k]), a);
      TrueRefsSnoc(With(exps, ms[..k], {Deleted}), ms[k], a);
    }
  }

  lemma {:induction false} ReleaseAllAt(artifacts: map<int, Artifact>, gone: seq<Metric>, keys: seq<int>, a: int)
    requires Distinct(keys)
    ensures var after := ReleaseAll(artifacts, gone, keys);
      if a !in artifacts || a !in keys then SameEntry(after, artifacts, a)
      else
        var left := Reduced(artifacts[a].refCount, RefsIn(gone, a));
        if left == 0 then a !in after else a in after && after[a] == artifacts[a].(refCount := left)
  {
    hide RefsIn;
    if keys != [] {
      var k := |keys| - 1;
      ReleaseAllAt(artifacts, gone, keys[..k], a);
      assert keys == keys[..k] + [keys[k]];
      assert keys[k] !in keys[..k];
    }
  }

  // What an applied run does to one artifact, given exact counts.
  lemma ArtifactOutcome(exps: Experiments, ms: seq<Metric>, artifacts: map<int, Artifact>, a: int)
    requires RefCountsExact(ms, artifacts) && a in artifacts
    ensures var after := ArtifactsAfter(exps, ms, artifacts);
      var lost, left := TrueRefsIn(With(exps, ms, {Deleted}), a), TrueRefsIn(Kept(exps, ms), a);
      if a == 0 || lost == 0 then SameEntry(after, artifacts, a)
      else if left == 0 then a !in after
      else a in after && after[a] == artifacts[a].(refCount := left)
  {
    hide With, Kept, ReleaseAll, Referred, RefsIn, TrueRefsIn;
    var gone := With(exps, ms, {Deleted});
    SeenRefs(gone, a);
    RefsSplit(exps, ms, a);
    ReferredDistinct(gone);
    ReleaseAllAt(artifacts, gone, Referred(gone), a);
  }

  lemma {:induction false} NoNewArtifacts(artifacts: map<int, Artifact>, gone: seq<Metric>, keys: seq<int>)
    ensures ReleaseAll(artifacts, gone, keys).Keys <= artifacts.Keys
  {
    if keys != [] {
      NoNewArtifacts(artifacts, gone, keys[..|keys| - 1]);
    }
  }

  /** An applied run keeps the counts exact, except that references to an artifact with id 0 are never given back: the
      counts stay exact if and only if no deleted row refers to an existing artifact 0. */
  lemma RefCountsKeptIff(exps: Experiments, ms: seq<Metric>, artifacts: map<int, Artifact>)
    requires RefCountsExact(ms, artifacts)
    ensures RefCountsExact(Kept(exps, ms), ArtifactsAfter(exps, ms, artifacts)) <==>
      (0 in artifacts ==> TrueRefsIn(With(exps, ms, {Deleted}), 0) == 0)
  {
    hide With, Kept, TrueRefsIn;
    var after := ArtifactsAfter(exps, ms, artifacts);
    NoNewArtifacts(artifacts, With(exps, ms, {Deleted}), Referred(With(exps, ms, {Deleted})));
    assert after.Keys <= artifacts.Keys;
    hide ReleaseAll, ArtifactsAfter;
    forall a | a in after
      ensures after[a].refCount == TrueRefsIn(Kept(exps, ms), a) <==>
        (a == 0 ==> TrueRefsIn(With(exps, ms, {Deleted}), 0) == 0)
    {
      ArtifactOutcome(exps, ms, artifacts, a);
      RefsSplit(exps, ms, a);
    }
    if 0 in artifacts {
      ArtifactOutcome(exps, ms, artifacts, 0);
    }
  }

  /** With exact counts, an artifact goes away exactly when a deleted row referred to it and no surviving row does. */
  lemma RemovedIff(exps: Experiments, ms: seq<Metric>, artifacts: map<int, Artifact>, a: int)
    requires RefCountsExact(ms, artifacts) && a in artifacts && a != 0
    ensures a !in ArtifactsAfter(exps, ms, artifacts) <==>
      TrueRefsIn(With(exps, ms, {Deleted}), a) > 0 && TrueRefsIn(Kept(exps, ms), a) == 0
  {
    hide With, Kept, TrueRefsIn, ArtifactsAfter;
    ArtifactOutcome(exps, ms, artifacts, a);
  }

  lemma {:induction false} DroppedFilesHold(artifacts: map<int, Artifact>, gone: seq<Metric>, keys: seq<int>, f: string)
    ensures f in DroppedFiles(artifacts, gone, keys) <==> IsDroppedFile(artifacts, gone, keys, f)
  {
    hide RefsIn, Reduced;
    if keys != [] {
      var k := |keys| - 1;
      DroppedFilesHold(artifacts, gone, keys[..k], f);
      assert keys == keys[..k] + [keys[k]];
    }
  }

  // A row without an artifact that names the file.
  predicate NamesLegacy(m: Metric, f: string) {
    m.artifactId in {None, Some(0)} && m.filePath == f
  }

  // A deleted row without an artifact names the file.
  ghost predicate IsLegacyFile(gone: seq<Metric>, f: string) {
    f != "" && exists i :: 0 <= i < |gone| && NamesLegacy(gone[i], f)
  }

  // The file of an artifact that is dropped with the deleted rows.
  ghost predicate IsDroppedFile(artifacts: map<int, Artifact>, gone: seq<Metric>, keys: seq<int>, f: string) {
    f != "" && exists a ::
      a in keys && a in artifacts && IsDropped(artifacts[a], gone, a) && artifacts[a].storagePath == f
  }

  lemma {:induction false} LegacyFilesHold(gone: seq<Metric>, f: string)
    ensures f in LegacyFiles(gone) <==> IsLegacyFile(gone, f)
  {
    if gone != [] {
      LegacyFilesHold(gone[..|gone| - 1], f);
      LegacySnoc(gone, f);
      hide IsLegacyFile;
    }
  }

  lemma LegacySnoc(gone: seq<Metric>, f: string)
    requires gone != []
    ensures var k := |gone| - 1;
      IsLegacyFile(gone, f) <==> IsLegacyFile(gone[..k], f) || (f != "" && NamesLegacy(gone[k], f))
  {
    hide NamesLegacy;
    var k := |gone| - 1;
    assert forall i :: 0 <= i < k ==> NamesLegacy(gone[..k][i], f) == NamesLegacy(gone[i], f);
    if f != "" && exists i :: 0 <= i < k && NamesLegacy(gone[i], f) {
      var i :| 0 <= i < k && NamesLegacy(gone[i], f);
      assert NamesLegacy(gone[..k][i], f);
    }
  }

  /** The files that an applied run leaves to be deleted: those of deleted rows without an artifact, and those of
      dropped artifacts; a dry run reports the former only. */
  lemma DeferredIff(exps: Experiments, ms: seq<Metric>, artifacts: map<int, Artifact>, apply: bool, f: string)
    ensures var gone := With(exps, ms, {Deleted});
      f in ReportOf(exps, ms, artifacts, apply).deferred <==>
        IsLegacyFile(gone, f) || (apply && IsDroppedFile(artifacts, gone, Referred(gone), f))
  {
    hide With, LegacyFiles, DroppedFiles, Referred, IsLegacyFile, IsDroppedFile, Ids;
    var gone := With(exps, ms, {Deleted});
    LegacyFilesHold(gone, f);
    DroppedFilesHold(artifacts, gone, Referred(gone), f);
  }

  /** An artifact is dropped when at least as many deleted rows refer to it as it counts references, where a count of
      zero stands for one; otherwise it keeps the rest. */
  lemma DroppedWhen(artifact: Artifact, gone: seq<Metric>, a: int)
    ensures var counted := if artifact.refCount == 0 then 1 else artifact.refCount;
      && (IsDropped(artifact, gone, a) <==> RefsIn(gone, a) >= counted)
      && (!IsDropped(artifact, gone, a) ==> Reduced(artifact.refCount, RefsIn(gone, a)) == counted - RefsIn(gone, a))
  {
    hide RefsIn;
  }

  /** The storage files queued for deletion are those of the removed artifacts; when paths are not shared, no file of a
      surviving artifact is among them. */
  lemma DroppedFilesAreOfRemoved(exps: Experiments, ms: seq<Metric>, artifacts: map<int, Artifact>)
    requires RefCountsExact(ms, artifacts)
    requires forall a, b ::
      a in artifacts && b in artifacts && artifacts[a].storagePath == artifacts[b].storagePath ==> a == b
    ensures var gone := With(exps, ms, {Deleted});
      var files, after := DroppedFiles(artifacts, gone, Referred(gone)), ArtifactsAfter(exps, ms, artifacts);
      && (forall f ::
            f in files <==> f != "" && exists a :: a in artifacts && a !in after && artifacts[a].storagePath == f)
      && (forall a :: a in after ==> after[a].storagePath !in files)
  {
    hide With, Kept, RefsIn, TrueRefsIn, Reduced, Referred, DroppedFiles;
    var gone := With(exps, ms, {Deleted});
    var keys := Referred(gone);
    var after := ArtifactsAfter(exps, ms, artifacts);
    ReferredDistinct(gone);
    NoNewArtifacts(artifacts, gone, keys);
    forall a | a in artifacts
      ensures a !in after <==> a in keys && Reduced(artifacts[a].refCount, RefsIn(gone, a)) == 0
      ensures a in after ==> after[a].storagePath == artifacts[a].storagePath
    {
      ReleaseAllAt(artifacts, gone, keys, a);
    }
    hide ReleaseAll, ArtifactsAfter;
    forall f {
      DroppedFilesHold(artifacts, gone, keys, f);
    }
  }

  /** One deleted row, the only one that refers to an artifact with id 0: its reference is never given back. */
  lemma ArtifactZeroLeaks()
    ensures var ms := [Metric(1, "gone", None, Some(0), "")];
      var artifacts := map[0 := Artifact(1, "arrays/0")];
      var none := Experiments(map[], {}, {});
      && RefCountsExact(ms, artifacts) && With(none, ms, {Deleted}) == ms
      && ArtifactsAfter(none, ms, artifacts) == artifacts
      && !RefCountsExact(Kept(none, ms), ArtifactsAfter(none, ms, artifacts))
  {
    var m := Metric(1, "gone", None, Some(0), "");
    var artifacts := map[0 := Artifact(1, "arrays/0")];
    var none := Experiments(map[], {}, {});
    assert [m][..0] == [];
    assert FateOf(none, m) == Deleted;
    assert With(none, [m], {Deleted}) == [m];
    assert TrueRefsIn([m], 0) == 1;
    forall a | a in artifacts ensures artifacts[a].refCount == TrueRefsIn([m], a) {
    }
    assert RefCountsExact([m], artifacts);
    assert Referred([m]) == [];
    RefCountsKeptIff(none, [m], artifacts);
  }
}
