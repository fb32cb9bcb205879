/** The fail-closed loop around the packer: pack, check convergence, generate the topology, validate, and retry with a
    new seed or a lower density.  The packer and the validator are adversarial: their answers to an attempt are any
    functions of the attempt number, the density and the seed. */
module PackRetry {
  import opened Common
  import opened Numeric

  // What the packer reports; the time-out is read off its error message.
  datatype PackResult = PackResult(success: bool, converged: bool, timeout: bool)

  type Packer = (nat, real, int) -> PackResult

  type Validator = (nat, real, int) -> bool

  // One attempt; the validator is not always asked.
  datatype Attempt = Attempt(number: nat, density: real, seed: int, packed: PackResult, valid: Option<bool>)

  datatype Reason = PackFailure | Unconverged | Defect

  datatype BuildError = PackingFailed(attempts: nat, last: Reason)

  const SEEDS_PER_DENSITY := 3
  const RECOMMENDED_DENSITY := 0.2
  const SEED_STEP := 104729
  const SEED_RANGE := 2_000_000_000

  // The seed of an attempt: a base taken from the composition, moved on by a prime for each attempt.
  function DeriveSeed(base: nat, attempt: nat): int {
    1 + (base + attempt * SEED_STEP) % SEED_RANGE
  }

  function Escalation(start: real): seq<real> {
    (if 0.3 < start then [0.3] else []) + (if 0.2 < start then [0.2] else []) + if 0.1 < start then [0.1] else []
  }

  // The densities to try: one fixed entry for an explicit box, otherwise the capped request and what lies below it.
  function Schedule(explicitBox: bool, initialDensity: real): seq<real> {
    if explicitBox then [initialDensity]
    else
      var start := MinR(initialDensity, RECOMMENDED_DENSITY);
      [start] + Escalation(start)
  }

  /** The start is capped at the recommended density, so only the last escalation step is ever used: at most two
      densities, strictly decreasing, and two exactly when the request is above 0.1. */
  lemma ScheduleShape(explicitBox: bool, initialDensity: real)
    ensures var s := Schedule(explicitBox, initialDensity);
      && 1 <= |s| <= 2
      && (|s| == 2 <==> !explicitBox && initialDensity > 0.1)
      && (forall i, j :: 0 <= i < j < |s| ==> s[j] < s[i])
      && (forall i :: 0 <= i < |s| ==> s[i] <= initialDensity)
  {
  }

  /** The schedule for every request: capped at 0.2, and followed by 0.1 where that is lower. */
  lemma ScheduleIs(explicitBox: bool, initialDensity: real)
    ensures explicitBox ==> Schedule(explicitBox, initialDensity) == [initialDensity]
    ensures !explicitBox && initialDensity >= 0.2 ==> Schedule(explicitBox, initialDensity) == [0.2, 0.1]
    ensures !explicitBox && 0.1 < initialDensity < 0.2 ==>
      Schedule(explicitBox, initialDensity) == [initialDensity, 0.1]
    ensures !explicitBox && initialDensity <= 0.1 ==> Schedule(explicitBox, initialDensity) == [initialDensity]
  {
  }

  // ---------------------------------------------------------------- seeds

  // 104729 times this is one more than a multiple of the range.
  const STEP_INVERSE := 1_964_995_369

  lemma InverseOfStep()
    ensures SEED_STEP * STEP_INVERSE % SEED_RANGE == 1
  {
  }

  lemma SameRemainder(x: int, y: int, m: int) returns (k: int)
    requires m > 0 && x % m == y % m
    ensures x - y == k * m
  {
    k := x / m - y / m;
    assert x == (x / m) * m + x % m && y == (y / m) * m + y % m;
    assert (x / m - y / m) * m == (x / m) * m - (y / m) * m;
  }

  // A multiple of the step that is a multiple of the range comes from a multiple of the range.
  lemma StepIsCoprime(d: int, k: int) returns (q: int)
    requires d * SEED_STEP == k * SEED_RANGE
    ensures d == q * SEED_RANGE
  {
    InverseOfStep();
    var t := SEED_STEP * STEP_INVERSE / SEED_RANGE;
    assert SEED_STEP * STEP_INVERSE == t * SEED_RANGE + 1;
    q := k * STEP_INVERSE - d * t;
    calc {
      d;
      d * (SEED_STEP * STEP_INVERSE) - d * t * SEED_RANGE;
      (d * SEED_STEP) * STEP_INVERSE - d * t * SEED_RANGE;
      k * SEED_RANGE * STEP_INVERSE - d * t * SEED_RANGE;
      q * SEED_RANGE;
    }
  }

  lemma ShiftedRemainder(x: int, y: int, k: int, m: int)
    requires m > 0 && x == y + k * m
    ensures x % m == y % m
  {
    assert y == (y / m) * m + y % m;
    assert (y / m + k) * m == (y / m) * m + k * m;
    RemainderOf(x, y / m + k, y % m, m);
  }

  // Multiples of the step agree modulo the range only when the factors do.
  lemma StepsAgreeIff(base: int, i: int, j: int, x: int, y: int)
    requires x == base + i * SEED_STEP && y == base + j * SEED_STEP
    ensures x % SEED_RANGE == y % SEED_RANGE <==> (i - j) % SEED_RANGE == 0
  {
    if x % SEED_RANGE == y % SEED_RANGE {
      var k := SameRemainder(x, y, SEED_RANGE);
      var q := StepIsCoprime(i - j, k);
      RemainderOf(i - j, q, 0, SEED_RANGE);
    }
    if (i - j) % SEED_RANGE == 0 {
      var q := (i - j) / SEED_RANGE;
      assert i - j == q * SEED_RANGE;
      ShiftedRemainder(x, y, q * SEED_STEP, SEED_RANGE);
    }
  }

  /** Seeds are positive, and repeat only after two thousand million attempts. */
  lemma SeedsDistinct(base: nat, i: nat, j: nat)
    ensures 1 <= DeriveSeed(base, i) <= 2_000_000_000
    ensures DeriveSeed(base, i) == DeriveSeed(base, j) <==> (i - j) % SEED_RANGE == 0
  {
    StepsAgreeIff(base, i, j, base + i * SEED_STEP, base + j * SEED_STEP);
  }

  /** The first seed comes from the base, and each further attempt moves on by 104729. */
  lemma SeedsMoveOn(base: nat, i: nat)
    ensures DeriveSeed(base, 0) == 1 + base % 2_000_000_000
    ensures var step := DeriveSeed(base, i + 1) - DeriveSeed(base, i);
      step == 104729 || step == 104729 - 2_000_000_000
  {
    var x := base + i * SEED_STEP;
    assert base + (i + 1) * SEED_STEP == x + SEED_STEP;
  }

  // ---------------------------------------------------------------- the retry loop

  // The validator sees only what the packer delivered and reported as converged.
  predicate IsAnswered(pack: Packer, validate: Validator, a: Attempt) {
    && a.packed == pack(a.number, a.density, a.seed)
    && (a.valid.Some? <==> a.packed.success && a.packed.converged)
    && (a.valid.Some? ==> a.valid.value == validate(a.number, a.density, a.seed))
  }

  // Attempts are numbered from 1, use the derived seeds, and record the answers of packer and validator.
  ghost predicate IsRecord(pack: Packer, validate: Validator, base: nat, trace: seq<Attempt>) {
    forall i :: 0 <= i < |trace| ==>
      trace[i].number == i + 1 && trace[i].seed == DeriveSeed(base, i + 1) && IsAnswered(pack, validate, trace[i])
  }

  predicate IsPassed(a: Attempt) {
    a.valid == Some(true)
  }

  predicate TimedOut(a: Attempt) {
    !a.packed.success && a.packed.timeout
  }

  function ReasonOf(a: Attempt): Reason {
    if !a.packed.success then PackFailure else if !a.packed.converged then Unconverged else Defect
  }

  lemma Recorded(pack: Packer, validate: Validator, base: nat, trace: seq<Attempt>, density: real, seed: int)
    requires IsRecord(pack, validate, base, trace) && seed == DeriveSeed(base, |trace| + 1)
    ensures var number := |trace| + 1;
      var p := pack(number, density, seed);
      && (!p.success || !p.converged ==>
            IsRecord(pack, validate, base, trace + [Attempt(number, density, seed, p, None)]))
      && (p.success && p.converged ==>
            var v := validate(number, density, seed);
            IsRecord(pack, validate, base, trace + [Attempt(number, density, seed, p, Some(v))]))
  {
    hide DeriveSeed;
  }

  /** What passes was packed, had converged, and was found free of defects; the reason names the first of the three that
      is missing. */
  lemma PassedMeans(pack: Packer, validate: Validator, a: Attempt)
    requires IsAnswered(pack, validate, a)
    ensures IsPassed(a) <==>
      var p := pack(a.number, a.density, a.seed);
      p.success && p.converged && validate(a.number, a.density, a.seed)
    ensures !IsPassed(a) ==>
      && (ReasonOf(a) == PackFailure <==> !a.packed.success)
      && (ReasonOf(a) == Unconverged <==> a.packed.success && !a.packed.converged)
      && (ReasonOf(a) == Defect <==> a.valid == Some(false))
  {
  }

  /** Attempts lo..hi were all made at one density, and the density was given up only after all its seeds or after a
      time-out, which ends it at once. */
  ghost predicate Abandoned(trace: seq<Attempt>, lo: nat, hi: nat, density: real) {
    && lo < hi <= lo + SEEDS_PER_DENSITY && hi <= |trace|
    && (hi == lo + SEEDS_PER_DENSITY || TimedOut(trace[hi - 1]))
    && (forall i :: lo <= i < hi - 1 ==> !TimedOut(trace[i]))
    && forall i :: lo <= i < hi ==> trace[i].density == density && !IsPassed(trace[i])
  }

  // Density number d of the schedule covers attempts starts[d] to starts[d + 1].
  ghost predicate AbandonedUpTo(trace: seq<Attempt>, schedule: seq<real>, starts: seq<nat>, n: nat) {
    && n <= |schedule| && |starts| == n + 1 && starts[0] == 0
    && forall d :: 0 <= d < n ==> Abandoned(trace, starts[d], starts[d + 1], schedule[d])
  }

  class StructureBuilder {
    var seed: int

    constructor ()
    {
      seed := 0;
    }

    // One density: up to three seeds; a time-out ends it.
    method TryDensity(pack: Packer, validate: Validator, base: nat, density: real, trace: seq<Attempt>)
      returns (trace': seq<Attempt>, passed: bool)
      requires IsRecord(pack, validate, base, trace)
      modifies this
      ensures IsRecord(pack, validate, base, trace') && trace < trace' && seed == trace'[|trace'| - 1].seed
      ensures |trace'| <= |trace| + SEEDS_PER_DENSITY
      ensures forall i :: |trace| <= i < |trace'| ==> trace'[i].density == density
      ensures forall i :: |trace| <= i < |trace'| - 1 ==> !IsPassed(trace'[i]) && !TimedOut(trace'[i])
      ensures passed <==> IsPassed(trace'[|trace'| - 1])
      ensures !passed ==> Abandoned(trace', |trace|, |trace'|, density)
    {
      hide DeriveSeed, IsRecord, IsAnswered;
      trace', passed := trace, false;
      var used := 0;
      while used < SEEDS_PER_DENSITY
        invariant 0 <= used <= SEEDS_PER_DENSITY && !passed
        invariant IsRecord(pack, validate, base, trace') && trace <= trace' && |trace'| == |trace| + used
        invariant used > 0 ==> seed == trace'[|trace'| - 1].seed
        invariant forall i :: |trace| <= i < |trace'| ==>
          trace'[i].density == density && !IsPassed(trace'[i]) && !TimedOut(trace'[i])
      {
        var number := |trace'| + 1;
        seed := DeriveSeed(base, number);
        var result := pack(number, density, seed);
        Recorded(pack, validate, base, trace', density, seed);
        if !result.success {
          trace' := trace' + [Attempt(number, density, seed, result, None)];
          if result.timeout {
            return;
          }
        } else if !result.converged {
          trace' := trace' + [Attempt(number, density, seed, result, None)];
        } else {
          var valid := validate(number, density, seed);
          trace' := trace' + [Attempt(number, density, seed, result, Some(valid))];
          if valid {
            passed := true;
            return;
          }
        }
        used := used + 1;
      }
    }

    /** Returns the first packing that passes; otherwise every scheduled density was abandoned, and the error counts the
        attempts and gives the reason of the last one. */
    method PackValidateRetry(pack: Packer, validate: Validator, base: nat, explicitBox: bool, initialDensity: real)
      returns (res: Result<Attempt, BuildError>, trace: seq<Attempt>, ghost starts: seq<nat>)
      modifies this
      ensures IsRecord(pack, validate, base, trace) && |trace| > 0 && seed == trace[|trace| - 1].seed
      ensures forall i :: 0 <= i < |trace| - 1 ==> !IsPassed(trace[i])
      ensures res.Success? <==> IsPassed(trace[|trace| - 1])
      ensures res.Success? ==> res.value == trace[|trace| - 1]
      ensures res.Failure? ==> res.error == PackingFailed(|trace|, ReasonOf(trace[|trace| - 1]))
      ensures var schedule := Schedule(explicitBox, initialDensity);
        var n := if res.Failure? then |schedule| else |starts| - 1;
        && 0 <= n <= |schedule| && AbandonedUpTo(trace, schedule, starts, n)
        && (res.Failure? ==> starts[n] == |trace|)
        && (res.Success? ==>
              && n < |schedule| && starts[n] < |trace| <= starts[n] + SEEDS_PER_DENSITY
              && (forall i :: starts[n] <= i < |trace| ==> trace[i].density == schedule[n])
              && forall i :: starts[n] <= i < |trace| - 1 ==> !TimedOut(trace[i]))
    {
      var schedule := Schedule(explicitBox, initialDensity);
      ScheduleShape(explicitBox, initialDensity);
      hide Schedule, DeriveSeed, IsAnswered;
      trace, starts := [], [0];
      for d := 0 to |schedule|
        invariant IsRecord(pack, validate, base, trace) && AbandonedUpTo(trace, schedule, starts, d)
        invariant starts[d] == |trace|
        invariant d > 0 ==> |trace| > 0 && seed == trace[|trace| - 1].seed
        invariant forall i :: 0 <= i < |trace| ==> !IsPassed(trace[i])
      {
        ghost var before := trace;
        var passed: bool;
        trace, passed := TryDensity(pack, validate, base, schedule[d], trace);
        StillAbandoned(before, trace, schedule, starts, d);
        if passed {
          return Success(trace[|trace| - 1]), trace, starts;
        }
        starts := starts + [|trace|];
      }
      return Failure(PackingFailed(|trace|, ReasonOf(trace[|trace| - 1]))), trace, starts;
    }
  }

  lemma StillAbandoned(trace: seq<Attempt>, trace': seq<Attempt>, schedule: seq<real>, starts: seq<nat>, n: nat)
    requires AbandonedUpTo(trace, schedule, starts, n) && trace <= trace'
    ensures AbandonedUpTo(trace', schedule, starts, n)
  {
    forall d | 0 <= d < n
      ensures Abandoned(trace', starts[d], starts[d + 1], schedule[d])
    {
      assert Abandoned(trace, starts[d], starts[d + 1], schedule[d]);
    }
  }

  lemma {:induction false} AbandonedLength(trace: seq<Attempt>, schedule: seq<real>, starts: seq<nat>, n: nat)
    requires AbandonedUpTo(trace, schedule, starts, n)
    ensures starts[n] <= SEEDS_PER_DENSITY * n
  {
    if n > 0 {
      assert AbandonedUpTo(trace, schedule, starts[..n], n - 1) by {
        forall d | 0 <= d < n - 1
          ensures Abandoned(trace, starts[..n][d], starts[..n][d + 1], schedule[d])
        {
          assert Abandoned(trace, starts[d], starts[d + 1], schedule[d]);
        }
      }
      AbandonedLength(trace, schedule, starts[..n], n - 1);
      assert Abandoned(trace, starts[n - 1], starts[n], schedule[n - 1]);
    }
  }

  /** However the packer and the validator behave, there are at most six attempts, and no two of them use the same
      seed. */
  lemma AttemptsBounded(pack: Packer, validate: Validator, base: nat, explicitBox: bool, initialDensity: real,
                        trace: seq<Attempt>, starts: seq<nat>, n: nat)
    requires IsRecord(pack, validate, base, trace)
    requires AbandonedUpTo(trace, Schedule(explicitBox, initialDensity), starts, n)
    requires if n == |Schedule(explicitBox, initialDensity)| then |trace| == starts[n]
             else |trace| <= starts[n] + SEEDS_PER_DENSITY
    ensures |trace| <= SEEDS_PER_DENSITY * |Schedule(explicitBox, initialDensity)| <= 6
    ensures forall i, j :: 0 <= i < j < |trace| ==> trace[i].seed != trace[j].seed
  {
    ScheduleShape(explicitBox, initialDensity);
    hide Schedule, DeriveSeed;
    AbandonedLength(trace, Schedule(explicitBox, initialDensity), starts, n);
    forall i, j | 0 <= i < j < |trace|
      ensures trace[i].seed != trace[j].seed
    {
      SeedsDistinct(base, i + 1, j + 1);
    }
  }
}
