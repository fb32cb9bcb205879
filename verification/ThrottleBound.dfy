/** What the throttle is for: bounding the number of builds that run at the same time.

    Everyone who builds counts, with a slot or without one.  The bound holds as long as no caller fails open, and breaks
    by exactly the callers that do: after a file-system error, or after a time-out.
 */
module ThrottleBound {
  import opened Common
  import opened BuildThrottle

  // Callers that are building, with a slot or without.
  ghost function Builders(s: State): set<Caller> {
    set c | c in s.phases && (s.phases[c].Holding? || s.phases[c].Unthrottled?)
  }

  // Every caller of the run asks for at least one and at most n slots.
  ghost predicate LimitsWithin(cfg: Config, steps: seq<Step>, n: nat) {
    forall i :: 0 <= i < |steps| ==> 1 <= cfg.limit(steps[i].c) <= n
  }

  // The two ways to fail open, each of them only if allowed.
  ghost predicate FailsOnlyBy(steps: seq<Step>, fileErrors: bool, timeOuts: bool) {
    forall i :: 0 <= i < |steps| ==>
      (steps[i].FileError? ==> fileErrors) && (steps[i].TimeOut? ==> timeOuts)
  }

  // ---------------------------------------------------------------- the bound

  lemma {:induction false} ActiveLimits(cfg: Config, steps: seq<Step>, n: nat, c: Caller)
    requires IsRun(cfg, steps) && LimitsWithin(cfg, steps, n)
    ensures c in After(cfg, steps).phases ==> 1 <= cfg.limit(c) <= n
  {
    if steps != [] {
      var k := |steps| - 1;
      ActiveLimits(cfg, steps[..k], n, c);
      assert 1 <= cfg.limit(steps[k].c) <= n;
    }
  }

  /** In every interleaving the builders exceed the limit by at most the callers that build without a slot. */
  lemma BuildersExceedByUnthrottled(cfg: Config, steps: seq<Step>, n: nat)
    requires IsRun(cfg, steps) && LimitsWithin(cfg, steps, n)
    ensures |Builders(After(cfg, steps))| <= n + |UnthrottledCallers(After(cfg, steps))|
  {
    var s := After(cfg, steps);
    var holders, others := HoldersWithin(cfg, s, n), UnthrottledCallers(s);
    HoldersBounded(cfg, steps, n);
    forall c | c in Builders(s) ensures c in holders + others {
      ActiveLimits(cfg, steps, n, c);
    }
    SubsetCard(Builders(s), holders + others);
  }

  lemma {:induction false} NobodyUnthrottled(cfg: Config, steps: seq<Step>, n: nat, c: Caller)
    requires IsRun(cfg, steps) && LimitsWithin(cfg, steps, n) && FailsOnlyBy(steps, false, false)
    ensures !After(cfg, steps).PhaseOf(c).Unthrottled?
  {
    if steps != [] {
      var k := |steps| - 1;
      NobodyUnthrottled(cfg, steps[..k], n, c);
      assert 1 <= cfg.limit(steps[k].c) <= n && !steps[k].FileError? && !steps[k].TimeOut?;
    }
  }

  /** When nobody fails open, at most n callers build at the same time, in every interleaving. */
  lemma BuildersBounded(cfg: Config, steps: seq<Step>, n: nat)
    requires IsRun(cfg, steps) && LimitsWithin(cfg, steps, n) && FailsOnlyBy(steps, false, false)
    ensures |Builders(After(cfg, steps))| <= n
  {
    BuildersExceedByUnthrottled(cfg, steps, n);
    var s := After(cfg, steps);
    forall c ensures c !in UnthrottledCallers(s) {
      NobodyUnthrottled(cfg, steps, n, c);
      assert c in s.phases ==> s.PhaseOf(c) == s.phases[c];
    }
    assert UnthrottledCallers(s) == {};
  }

  // ---------------------------------------------------------------- runs that break it

  // Every caller asks for n slots, and process ids are all different.
  function Crowd(n: nat): Config {
    Config((c: Caller) => n, (c: Caller) => c)
  }

  // The callers below h hold the slot of their own number, those from h to b build without one, the rest are outside.
  ghost predicate Crowded(s: State, h: nat, b: nat) {
    && (forall c: Caller :: s.PhaseOf(c) == if c < h then Holding(c) else if c < b then Unthrottled else Outside)
    && (forall k: nat :: k in s.locks <==> k < h)
  }

  lemma CrowdedBuilders(s: State, h: nat, b: nat)
    requires Crowded(s, h, b) && h <= b
    ensures |Builders(s)| == b && |UnthrottledCallers(s)| == b - h
  {
    forall c: Caller ensures c in Builders(s) <==> c in FirstCallers(b) {
      assert s.PhaseOf(c) == if c < h then Holding(c) else if c < b then Unthrottled else Outside;
    }
    assert Builders(s) == FirstCallers(b);
    forall c: Caller ensures c in UnthrottledCallers(s) <==> c in FirstCallers(b) - FirstCallers(h) {
      assert s.PhaseOf(c) == if c < h then Holding(c) else if c < b then Unthrottled else Outside;
    }
    assert UnthrottledCallers(s) == FirstCallers(b) - FirstCallers(h);
    assert FirstCallers(h) <= FirstCallers(b);
  }

  // n callers enter one after the other, and each takes the slot of its own number.
  lemma {:induction false} FillSlots(n: nat, h: nat) returns (steps: seq<Step>)
    requires h <= n
    ensures IsRun(Crowd(n), steps) && FailsOnlyBy(steps, false, false) && Crowded(After(Crowd(n), steps), h, h)
  {
    if h == 0 {
      steps := [];
      EmptyRun(Crowd(n));
    } else {
      var before := FillSlots(n, h - 1);
      var c: Caller := h - 1;
      var s := After(Crowd(n), before);
      OwnSlot(n, c);
      TakeOwnSlot(n, s, c);
      RunSnoc(Crowd(n), before, Enter(c));
      RunSnoc(Crowd(n), before + [Enter(c)], Acquire(c));
      steps := before + [Enter(c)] + [Acquire(c)];
    }
  }

  lemma OwnSlot(n: nat, c: Caller)
    requires c < n
    ensures SlotAt(n, c, 0) == c
  {
  }

  lemma TakeOwnSlot(n: nat, s: State, c: Caller)
    requires c < n && Crowded(s, c, c) && SlotAt(n, c, 0) == c
    ensures Enabled(Crowd(n), s, Enter(c)) && Enabled(Crowd(n), Apply(Crowd(n), s, Enter(c)), Acquire(c))
    ensures Crowded(Apply(Crowd(n), Apply(Crowd(n), s, Enter(c)), Acquire(c)), c + 1, c + 1)
  {
    hide SlotAt;
    var t := Apply(Crowd(n), s, Enter(c));
    assert t.PhaseOf(c) == Probing(0, {}) && Probed(Crowd(n), t, c) == c;
    var u := Apply(Crowd(n), t, Acquire(c));
    forall d: Caller ensures u.PhaseOf(d) == if d < c + 1 then Holding(d) else Outside {
      assert s.PhaseOf(d) == if d < c then Holding(d) else Outside;
    }
    assert u.locks == s.locks[c := c];
  }

  // Nothing changes but the phase of one caller.
  ghost predicate OnlyMoves(s: State, t: State, c: Caller, p: Phase) {
    t.locks == s.locks && forall d: Caller :: t.PhaseOf(d) == if d == c then p else s.PhaseOf(d)
  }

  // With all slots taken, the rest of a sweep finds nothing.
  lemma {:induction false} FruitlessSweep(cfg: Config, steps: seq<Step>, c: Caller, offset: nat, busy: set<nat>)
    returns (more: seq<Step>, seen: set<nat>)
    requires IsRun(cfg, steps) && FailsOnlyBy(steps, false, true)
    requires After(cfg, steps).PhaseOf(c) == Probing(offset, busy) && offset < cfg.limit(c)
    requires forall k: nat :: k < cfg.limit(c) ==> k in After(cfg, steps).locks
    ensures IsRun(cfg, more) && FailsOnlyBy(more, false, true)
    ensures OnlyMoves(After(cfg, steps), After(cfg, more), c, SweepDone(seen))
    decreases cfg.limit(c) - offset
  {
    hide SlotAt;
    var s := After(cfg, steps);
    RunSnoc(cfg, steps, Busy(c));
    more := steps + [Busy(c)];
    seen := busy + {Probed(cfg, s, c)};
    if offset + 1 < cfg.limit(c) {
      more, seen := FruitlessSweep(cfg, more, c, offset + 1, seen);
    }
  }

  // One more caller enters while all slots are taken, and fails open.
  lemma FailOpen(cfg: Config, steps: seq<Step>, c: Caller, byFile: bool) returns (more: seq<Step>)
    requires IsRun(cfg, steps) && FailsOnlyBy(steps, byFile, !byFile)
    requires After(cfg, steps).PhaseOf(c) == Outside && cfg.limit(c) > 0
    requires forall k: nat :: k < cfg.limit(c) ==> k in After(cfg, steps).locks
    ensures IsRun(cfg, more) && FailsOnlyBy(more, byFile, !byFile)
    ensures OnlyMoves(After(cfg, steps), After(cfg, more), c, Unthrottled)
  {
    hide SlotAt, IsRun, After;
    var s := After(cfg, steps);
    RunSnoc(cfg, steps, Enter(c));
    more := steps + [Enter(c)];
    assert OnlyMoves(s, After(cfg, more), c, Probing(0, {}));
    if byFile {
      RunSnoc(cfg, more, FileError(c));
      more := more + [FileError(c)];
    } else {
      var seen;
      more, seen := FruitlessSweep(cfg, more, c, 0, {});
      assert After(cfg, more).PhaseOf(c) == SweepDone(seen);
      RunSnoc(cfg, more, TimeOut(c));
      more := more + [TimeOut(c)];
    }
    var t := After(cfg, more);
    forall d: Caller ensures t.PhaseOf(d) == if d == c then Unthrottled else s.PhaseOf(d) {
    }
  }

  /** On top of n holders, any number of callers can fail open, by file errors alone or by time-outs alone, and every
      one of them is a build too many. */
  lemma {:induction false} BoundBroken(n: nat, extra: nat, byFile: bool) returns (steps: seq<Step>)
    requires n > 0
    ensures IsRun(Crowd(n), steps) && LimitsWithin(Crowd(n), steps, n) && FailsOnlyBy(steps, byFile, !byFile)
    ensures Crowded(After(Crowd(n), steps), n, n + extra)
    ensures |Builders(After(Crowd(n), steps))| == n + extra
  {
    if extra == 0 {
      steps := FillSlots(n, n);
    } else {
      var before := BoundBroken(n, extra - 1, byFile);
      var c: Caller := n + extra - 1;
      var s := After(Crowd(n), before);
      steps := FailOpen(Crowd(n), before, c, byFile);
      var t := After(Crowd(n), steps);
      assert OnlyMoves(s, t, c, Unthrottled);
    }
    CrowdedBuilders(After(Crowd(n), steps), n, n + extra);
  }

  // The promise of the throttle, for callers that ask for at most n slots and fail open only in the given ways.
  ghost predicate Throttles(n: nat, fileErrors: bool, timeOuts: bool) {
    forall cfg, steps ::
      IsRun(cfg, steps) && LimitsWithin(cfg, steps, n) && FailsOnlyBy(steps, fileErrors, timeOuts) ==>
        |Builders(After(cfg, steps))| <= n
  }

  /** The throttle keeps its promise if and only if callers fail open in neither way. */
  lemma ThrottlesIff(n: nat, fileErrors: bool, timeOuts: bool)
    requires n > 0
    ensures Throttles(n, fileErrors, timeOuts) <==> !fileErrors && !timeOuts
  {
    if !fileErrors && !timeOuts {
      forall cfg, steps | IsRun(cfg, steps) && LimitsWithin(cfg, steps, n) && FailsOnlyBy(steps, false, false)
        ensures |Builders(After(cfg, steps))| <= n
      {
        BuildersBounded(cfg, steps, n);
      }
    } else {
      var steps := BoundBroken(n, 1, fileErrors);
      assert FailsOnlyBy(steps, fileErrors, timeOuts);
    }
  }
}
