/** The cross-process build throttle: a counting semaphore made of non-blocking file locks.

    Callers are modelled as a state machine over the steps between which other callers can run: one probe of one slot
    file, the end of a sweep, the release, the end of a build.  The exclusive lock of the kernel is the lock table:
    a non-blocking attempt succeeds exactly when no caller holds the slot, and the locks of a dead caller are freed.
 */
module BuildThrottle {
  import opened Common

  type Caller = nat

  /** Where a caller is: still outside, probing slot number offset of a sweep, at the end of a sweep of busy slots,
      building with a slot, or building without one.  The set busy records the slots found taken in this sweep. */
  datatype Phase =
    | Outside
    | Probing(offset: nat, busy: set<nat>)
    | SweepDone(busy: set<nat>)
    | Holding(slot: nat)
    | Unthrottled

  // The limit each caller asks for and its process id.
  datatype Config = Config(limit: Caller -> int, pid: Caller -> nat)

  // Callers that never entered are outside; locks maps a slot to its holder.
  datatype State = State(phases: map<Caller, Phase>, locks: map<nat, Caller>)
  {
    function PhaseOf(c: Caller): Phase {
      if c in phases then phases[c] else Outside
    }

    function Put(c: Caller, p: Phase): State {
      this.(phases := phases[c := p])
    }
  }

  datatype Step =
    | Enter(c: Caller)
    | Acquire(c: Caller)
    | Busy(c: Caller)
    | FileError(c: Caller)
    | TimeOut(c: Caller)
    | Sleep(c: Caller)
    | Release(c: Caller)
    | Leave(c: Caller)
    | Die(c: Caller)

  // The slot probed at an offset: the order starts at the process id.
  function SlotAt(limit: int, pid: nat, offset: nat): (slot: nat)
    requires limit > 0
    ensures slot < limit
  {
    (pid % limit + offset) % limit
  }

  /** The sweep starts at the process id, goes up slot by slot, and goes on at slot 0 after the last one. */
  lemma SweepOrder(limit: int, pid: nat, offset: nat)
    requires limit > 0
    ensures SlotAt(limit, pid, 0) == pid % limit
    ensures var slot := SlotAt(limit, pid, offset);
      SlotAt(limit, pid, offset + 1) == if slot + 1 == limit then 0 else slot + 1
  {
    var start := pid % limit;
    RemainderOf(start, 0, start, limit);
    NextRemainder(start + offset, limit, (start + offset) / limit, SlotAt(limit, pid, offset));
  }

  lemma NextRemainder(x: int, n: int, q: int, r: int)
    requires n > 0 && x == q * n + r && 0 <= r < n
    ensures (x + 1) % n == if r + 1 == n then 0 else r + 1
  {
    if r + 1 < n {
      RemainderOf(x + 1, q, r + 1, n);
    } else {
      RemainderOf(x + 1, q + 1, 0, n);
    }
  }

  function Probed(cfg: Config, s: State, c: Caller): nat
    requires s.PhaseOf(c).Probing? && cfg.limit(c) > 0
  {
    SlotAt(cfg.limit(c), cfg.pid(c), s.PhaseOf(c).offset)
  }

  predicate Enabled(cfg: Config, s: State, step: Step) {
    var p := s.PhaseOf(step.c);
    match step
    case Enter(c) => p.Outside?
    case Acquire(c) => p.Probing? && cfg.limit(c) > 0 && Probed(cfg, s, c) !in s.locks
    case Busy(c) => p.Probing? && cfg.limit(c) > 0 && Probed(cfg, s, c) in s.locks
    case FileError(c) => p.Probing?
    case TimeOut(c) => p.SweepDone?
    case Sleep(c) => p.SweepDone?
    case Release(c) => p.Holding?
    case Leave(c) => p.Unthrottled?
    case Die(c) => !p.Outside?
  }

  function Without(locks: map<nat, Caller>, c: Caller): map<nat, Caller> {
    map k | k in locks && locks[k] != c :: locks[k]
  }

  function Apply(cfg: Config, s: State, step: Step): State
    requires Enabled(cfg, s, step)
  {
    match step
    case Enter(c) => s.Put(c, if cfg.limit(c) <= 0 then Unthrottled else Probing(0, {}))
    case Acquire(c) =>
      var k := Probed(cfg, s, c);
      s.Put(c, Holding(k)).(locks := s.locks[k := c])
    case Busy(c) =>
      var p := s.PhaseOf(c);
      var busy := p.busy + {Probed(cfg, s, c)};
      s.Put(c, if p.offset + 1 < cfg.limit(c) then Probing(p.offset + 1, busy) else SweepDone(busy))
    case FileError(c) => s.Put(c, Unthrottled)
    case TimeOut(c) => s.Put(c, Unthrottled)
    case Sleep(c) => s.Put(c, Probing(0, {}))
    case Release(c) => s.Put(c, Outside).(locks := s.locks - {s.PhaseOf(c).slot})
    case Leave(c) => s.Put(c, Outside)
    case Die(c) => s.Put(c, Outside).(locks := Without(s.locks, c))
  }

  // ---------------------------------------------------------------- runs

  const START := State(map[], map[])

  ghost predicate IsRun(cfg: Config, steps: seq<Step>)
    decreases |steps|, 0
  {
    steps == [] ||
    (IsRun(cfg, steps[..|steps| - 1]) && Enabled(cfg, After(cfg, steps[..|steps| - 1]), steps[|steps| - 1]))
  }

  ghost function After(cfg: Config, steps: seq<Step>): State
    requires IsRun(cfg, steps)
    decreases |steps|, 1
  {
    if steps == [] then START else Apply(cfg, After(cfg, steps[..|steps| - 1]), steps[|steps| - 1])
  }

  // ---------------------------------------------------------------- the probe order

  ghost function SlotsBefore(limit: int, pid: nat, offset: nat): set<nat>
    requires limit > 0
  {
    set o: nat | o < offset :: SlotAt(limit, pid, o)
  }

  lemma SlotAtInjective(limit: int, pid: nat, o: nat, o': nat)
    requires limit > 0 && o < limit && o' < limit && SlotAt(limit, pid, o) == SlotAt(limit, pid, o')
    ensures o == o'
  {
    var s := pid % limit;
    assert (s + o) % limit == if s + o < limit then s + o else s + o - limit by { WrapOnce(s + o, limit); }
    assert (s + o') % limit == if s + o' < limit then s + o' else s + o' - limit by { WrapOnce(s + o', limit); }
  }

  lemma WrapOnce(x: nat, n: int)
    requires 0 <= x < 2 * n
    ensures x % n == if x < n then x else x - n
  {
  }

  // The offset at which a slot is probed.
  function OffsetOf(limit: int, pid: nat, slot: nat): (o: nat)
    requires slot < limit
    ensures o < limit && SlotAt(limit, pid, o) == slot
  {
    var s := pid % limit;
    var o := if slot >= s then slot - s else slot + limit - s;
    WrapOnce(s + o, limit);
    o
  }

  /** A sweep probes every slot below the limit, and none twice. */
  lemma SweepIsPermutation(limit: int, pid: nat)
    requires limit > 0
    ensures forall k: nat :: k < limit <==> k in SlotsBefore(limit, pid, limit)
    ensures forall o: nat, o': nat ::
      o < limit && o' < limit && SlotAt(limit, pid, o) == SlotAt(limit, pid, o') ==> o == o'
  {
    forall k: nat | k < limit ensures k in SlotsBefore(limit, pid, limit) {
      var o := OffsetOf(limit, pid, k);
      assert SlotAt(limit, pid, o) == k;
    }
    forall o: nat, o': nat | o < limit && o' < limit && SlotAt(limit, pid, o) == SlotAt(limit, pid, o')
      ensures o == o'
    {
      SlotAtInjective(limit, pid, o, o');
    }
  }

  // ---------------------------------------------------------------- the invariant

  ghost predicate PhaseOk(cfg: Config, c: Caller, p: Phase) {
    match p
    case Outside => true
    case Probing(offset, busy) =>
      cfg.limit(c) > 0 && offset < cfg.limit(c) && busy == SlotsBefore(cfg.limit(c), cfg.pid(c), offset)
    case SweepDone(busy) => cfg.limit(c) > 0 && busy == SlotsBefore(cfg.limit(c), cfg.pid(c), cfg.limit(c))
    case Holding(slot) => slot < cfg.limit(c)
    case Unthrottled => true
  }

  /** Holders and the lock table agree, and every phase is consistent with the caller's limit. */
  ghost predicate Inv(cfg: Config, s: State) {
    && (forall c: Caller :: PhaseOk(cfg, c, s.PhaseOf(c)))
    && Agreement(s)
  }

  ghost predicate Agreement(s: State) {
    forall c: Caller, k: nat :: s.PhaseOf(c) == Holding(k) <==> k in s.locks && s.locks[k] == c
  }

  lemma SlotsBeforeStep(limit: int, pid: nat, offset: nat)
    requires limit > 0
    ensures SlotsBefore(limit, pid, 0) == {}
    ensures SlotsBefore(limit, pid, offset + 1) == SlotsBefore(limit, pid, offset) + {SlotAt(limit, pid, offset)}
  {
    forall k ensures k in SlotsBefore(limit, pid, offset + 1) <==>
      k in SlotsBefore(limit, pid, offset) + {SlotAt(limit, pid, offset)} {
    }
  }

  lemma PhaseOkStep(cfg: Config, s: State, step: Step)
    requires Inv(cfg, s) && Enabled(cfg, s, step)
    ensures forall c :: PhaseOk(cfg, c, Apply(cfg, s, step).PhaseOf(c))
  {
    hide SlotsBefore;
    var c := step.c;
    var p := s.PhaseOf(c);
    assert PhaseOk(cfg, c, p);
    if cfg.limit(c) > 0 {
      SlotsBeforeStep(cfg.limit(c), cfg.pid(c), if p.Probing? then p.offset else 0);
    }
    forall d ensures PhaseOk(cfg, d, Apply(cfg, s, step).PhaseOf(d)) {
      assert PhaseOk(cfg, d, s.PhaseOf(d));
    }
  }

  lemma AgreementStep(cfg: Config, s: State, step: Step)
    requires Inv(cfg, s) && Enabled(cfg, s, step)
    ensures Agreement(Apply(cfg, s, step))
  {
    hide SlotsBefore, PhaseOk, SlotAt;
    var t := Apply(cfg, s, step);
    forall c: Caller, k: nat
      ensures t.PhaseOf(c) == Holding(k) <==> k in t.locks && t.locks[k] == c
    {
      assert s.PhaseOf(c) == Holding(k) <==> k in s.locks && s.locks[k] == c;
      assert s.PhaseOf(step.c) == Holding(k) <==> k in s.locks && s.locks[k] == step.c;
    }
  }

  /** In every interleaving, after every step, the invariant holds. */
  lemma {:induction false} InvAlways(cfg: Config, steps: seq<Step>)
    requires IsRun(cfg, steps)
    ensures Inv(cfg, After(cfg, steps))
  {
    hide Inv, Enabled, Apply;
    if steps != [] {
      var init := steps[..|steps| - 1];
      InvAlways(cfg, init);
      InvStep(cfg, After(cfg, init), steps[|steps| - 1]);
    } else {
      InvStart(cfg);
    }
  }

  lemma InvStart(cfg: Config)
    ensures Inv(cfg, START)
  {
  }

  lemma InvStep(cfg: Config, s: State, step: Step)
    requires Inv(cfg, s) && Enabled(cfg, s, step)
    ensures Inv(cfg, Apply(cfg, s, step))
  {
    hide PhaseOk, Apply, Enabled;
    PhaseOkStep(cfg, s, step);
    AgreementStep(cfg, s, step);
  }

  // ---------------------------------------------------------------- the bound

  // Callers that hold a slot and asked for at most n.
  ghost function HoldersWithin(cfg: Config, s: State, n: nat): set<Caller> {
    set c | c in s.phases && s.phases[c].Holding? && cfg.limit(c) <= n
  }

  /** In every interleaving at most n callers with limit at most n hold a slot at the same time; with one common limit,
      at most that many callers hold a slot at all. */
  lemma HoldersBounded(cfg: Config, steps: seq<Step>, n: nat)
    requires IsRun(cfg, steps)
    ensures |HoldersWithin(cfg, After(cfg, steps), n)| <= n
  {
    InvAlways(cfg, steps);
    var s := After(cfg, steps);
    var holders := HoldersWithin(cfg, s, n);
    forall c | c in holders
      ensures s.phases[c].slot < n && s.phases[c].slot in s.locks && s.locks[s.phases[c].slot] == c
    {
      assert PhaseOk(cfg, c, s.PhaseOf(c));
      assert s.PhaseOf(c) == Holding(s.phases[c].slot);
    }
    var slotOf := map c | c in holders :: s.phases[c].slot;
    var slots := set c | c in holders :: s.phases[c].slot;
    IntervalCard(0, n, slots);
    InjectionBoundsCard(holders, slots, slotOf);
  }

  /** No caller ever holds two slots, and no slot has two holders. */
  lemma OneSlotOneHolder(cfg: Config, steps: seq<Step>, k: nat, l: nat)
    requires IsRun(cfg, steps) && k in After(cfg, steps).locks && l in After(cfg, steps).locks
    requires After(cfg, steps).locks[k] == After(cfg, steps).locks[l]
    ensures k == l
  {
    InvAlways(cfg, steps);
    var s := After(cfg, steps);
    assert s.PhaseOf(s.locks[k]) == Holding(k);
    assert s.PhaseOf(s.locks[l]) == Holding(l);
  }

  // ---------------------------------------------------------------- what a timeout shows

  // At position j of the run the caller found slot k taken by somebody else.
  ghost predicate FoundBusy(cfg: Config, steps: seq<Step>, c: Caller, k: nat, j: nat)
    requires IsRun(cfg, steps)
  {
    && j < |steps| && steps[j] == Busy(c)
    && IsRun(cfg, steps[..j])
    && k in After(cfg, steps[..j]).locks && After(cfg, steps[..j]).locks[k] != c
    && forall l :: j <= l < |steps| ==> steps[l] != Enter(c) && steps[l] != Sleep(c)
  }

  function BusySet(p: Phase): set<nat> {
    match p
    case Probing(_, busy) => busy
    case SweepDone(busy) => busy
    case _ => {}
  }

  lemma BusySource(cfg: Config, s: State, step: Step, c: Caller, k: nat)
    requires Inv(cfg, s) && Enabled(cfg, s, step)
    requires k in BusySet(Apply(cfg, s, step).PhaseOf(c))
    ensures step != Enter(c) && step != Sleep(c)
    ensures k in BusySet(s.PhaseOf(c)) || (step == Busy(c) && k in s.locks && s.locks[k] != c)
  {
    hide SlotAt, SlotsBefore;
  }

  /** Every slot recorded as busy was found taken by another caller, earlier in the same sweep. */
  lemma {:induction false} BusyWasTaken(cfg: Config, steps: seq<Step>, c: Caller, k: nat)
    requires IsRun(cfg, steps) && k in BusySet(After(cfg, steps).PhaseOf(c))
    ensures exists j: nat :: FoundBusy(cfg, steps, c, k, j)
  {
    hide Inv, Enabled, Apply;
    if steps != [] {
      var n := |steps| - 1;
      var init := steps[..n];
      InvAlways(cfg, init);
      BusySource(cfg, After(cfg, init), steps[n], c, k);
      if k in BusySet(After(cfg, init).PhaseOf(c)) {
        BusyWasTaken(cfg, init, c, k);
        var j: nat :| FoundBusy(cfg, init, c, k, j);
        assert steps[..j] == init[..j];
        assert FoundBusy(cfg, steps, c, k, j);
      } else {
        assert FoundBusy(cfg, steps, c, k, n);
      }
    }
  }

  /** A caller times out only after a sweep in which it found every slot taken by another caller, one after the other;
      they need not all have been taken at the same time. */
  lemma TimeOutSawAllTaken(cfg: Config, steps: seq<Step>, c: Caller, k: nat)
    requires IsRun(cfg, steps) && Enabled(cfg, After(cfg, steps), TimeOut(c)) && k < cfg.limit(c)
    ensures exists j: nat :: FoundBusy(cfg, steps, c, k, j)
  {
    InvAlways(cfg, steps);
    var s := After(cfg, steps);
    assert PhaseOk(cfg, c, s.PhaseOf(c));
    SweepIsPermutation(cfg.limit(c), cfg.pid(c));
    BusyWasTaken(cfg, steps, c, k);
  }

  // ---------------------------------------------------------------- an undisturbed sweep

  lemma RunSnoc(cfg: Config, steps: seq<Step>, step: Step)
    requires IsRun(cfg, steps) && Enabled(cfg, After(cfg, steps), step)
    ensures IsRun(cfg, steps + [step]) && After(cfg, steps + [step]) == Apply(cfg, After(cfg, steps), step)
  {
    assert (steps + [step])[..|steps|] == steps;
  }

  /** One sweep that nobody interrupts: it takes the first free slot in probe order, and comes up empty only when every
      slot is taken. */
  method Sweep(cfg: Config, s: State, c: Caller, ghost steps: seq<Step>)
    returns (s': State, acquired: Option<nat>, ghost steps': seq<Step>)
    requires IsRun(cfg, steps) && s == After(cfg, steps)
    requires cfg.limit(c) > 0 && s.PhaseOf(c) == Probing(0, {})
    ensures IsRun(cfg, steps') && s' == After(cfg, steps') && steps <= steps'
    ensures forall i :: |steps| <= i < |steps'| ==> steps'[i].c == c
    ensures acquired.None? <==> forall k: nat :: k < cfg.limit(c) ==> k in s.locks
    ensures acquired.None? ==> s'.PhaseOf(c).SweepDone? && s'.locks == s.locks
    ensures acquired.Some? ==>
      && acquired.value !in s.locks && s'.PhaseOf(c) == Holding(acquired.value)
      && s'.locks == s.locks[acquired.value := c]
      && exists o: nat :: o < cfg.limit(c) && acquired.value == SlotAt(cfg.limit(c), cfg.pid(c), o)
           && forall o': nat :: o' < o ==> SlotAt(cfg.limit(c), cfg.pid(c), o') in s.locks
  {
    hide IsRun, After, SlotAt;
    var limit, pid := cfg.limit(c), cfg.pid(c);
    s', acquired, steps' := s, None, steps;
    var offset := 0;
    while offset < limit
      invariant 0 <= offset <= limit
      invariant IsRun(cfg, steps') && s' == After(cfg, steps') && steps <= steps'
      invariant forall i :: |steps| <= i < |steps'| ==> steps'[i].c == c
      invariant s'.locks == s.locks
      invariant offset < limit ==> s'.PhaseOf(c).Probing? && s'.PhaseOf(c).offset == offset
      invariant offset == limit ==> s'.PhaseOf(c).SweepDone?
      invariant forall o: nat :: o < offset ==> SlotAt(limit, pid, o) in s.locks
    {
      var slot := SlotAt(limit, pid, offset);
      if slot !in s'.locks {
        RunSnoc(cfg, steps', Acquire(c));
        s', steps' := Apply(cfg, s', Acquire(c)), steps' + [Acquire(c)];
        return s', Some(slot), steps';
      }
      RunSnoc(cfg, steps', Busy(c));
      s', steps' := Apply(cfg, s', Busy(c)), steps' + [Busy(c)];
      offset := offset + 1;
    }
    forall k: nat | k < limit ensures k in s.locks {
      var o := OffsetOf(limit, pid, k);
      assert SlotAt(limit, pid, o) in s.locks;
    }
  }

  // ---------------------------------------------------------------- callers that fail open

  ghost function FailOpenRun(n: nat): seq<Step> {
    if n == 0 then [] else FailOpenRun(n - 1) + [Enter(n - 1), FileError(n - 1)]
  }

  ghost function UnthrottledCallers(s: State): set<Caller> {
    set c | c in s.phases && s.phases[c].Unthrottled?
  }

  ghost function FirstCallers(n: nat): (cs: set<Caller>)
    ensures forall c: Caller :: c in cs <==> c < n
    ensures |cs| == n
  {
    if n == 0 then {} else FirstCallers(n - 1) + {n - 1}
  }

  lemma UnthrottledPut(s: State, c: Caller)
    ensures UnthrottledCallers(s.Put(c, Unthrottled)) == UnthrottledCallers(s) + {c}
  {
  }

  lemma FailOpenUnfold(n: nat)
    ensures FailOpenRun(0) == [] && FirstCallers(0) == {} == UnthrottledCallers(START)
    ensures n > 0 ==> FailOpenRun(n) == FailOpenRun(n - 1) + [Enter(n - 1)] + [FileError(n - 1)]
    ensures n > 0 ==> FirstCallers(n) == FirstCallers(n - 1) + {n - 1}
  {
  }

  lemma {:induction false} FailOpenState(cfg: Config, n: nat)
    requires forall c: Caller :: cfg.limit(c) > 0
    ensures IsRun(cfg, FailOpenRun(n))
    ensures var s := After(cfg, FailOpenRun(n));
      && UnthrottledCallers(s) == FirstCallers(n)
      && forall c: Caller :: c >= n ==> s.PhaseOf(c) == Outside
  {
    hide Enabled, Apply, IsRun, After, UnthrottledCallers, FirstCallers, FailOpenRun;
    FailOpenUnfold(n);
    if n == 0 {
      EmptyRun(cfg);
    } else {
      FailOpenState(cfg, n - 1);
      var s := After(cfg, FailOpenRun(n - 1));
      FailOpenSteps(cfg, s, n - 1);
      RunSnoc(cfg, FailOpenRun(n - 1), Enter(n - 1));
      RunSnoc(cfg, FailOpenRun(n - 1) + [Enter(n - 1)], FileError(n - 1));
      UnthrottledPut(s, n - 1);
      var t := After(cfg, FailOpenRun(n));
      assert t == s.Put(n - 1, Unthrottled);
      assert UnthrottledCallers(t) == FirstCallers(n);
      forall c: Caller | c >= n ensures t.PhaseOf(c) == Outside {
        assert s.PhaseOf(c) == Outside;
      }
    }
  }

  lemma EmptyRun(cfg: Config)
    ensures IsRun(cfg, []) && After(cfg, []) == START
  {
  }

  lemma FailOpenSteps(cfg: Config, s: State, c: Caller)
    requires cfg.limit(c) > 0 && s.PhaseOf(c) == Outside
    ensures Enabled(cfg, s, Enter(c)) && Enabled(cfg, Apply(cfg, s, Enter(c)), FileError(c))
    ensures Apply(cfg, Apply(cfg, s, Enter(c)), FileError(c)) == s.Put(c, Unthrottled)
  {
  }

  /** The bound covers slot holders only: any number of callers can build at once after a file-system error. */
  lemma FailOpenIsUnbounded(cfg: Config, n: nat)
    requires forall c: Caller :: cfg.limit(c) > 0
    ensures exists steps :: IsRun(cfg, steps) && |UnthrottledCallers(After(cfg, steps))| == n
  {
    FailOpenState(cfg, n);
    assert IsRun(cfg, FailOpenRun(n));
  }
}
