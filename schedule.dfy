/**
 * The world as a value and the systems as steps on it. A schedule is any
 * sequence of system runs. Lengths, monotonic death and the living count
 * are proved for every schedule, and the value ranges are preserved by every
 * schedule once they hold, so for every order in which the worker pool may
 * serialise the systems of a tick and for any number of ticks. The
 * end-of-tick properties (deaths settled, counter exact) are proved for the
 * submission order, and `AliveCheckEarlyLeavesDeathUnsettled` shows that
 * another order leaves deaths unsettled while `AliveCheckEarlyCountsLiving`
 * shows that its counter is still exact.
 */
module Schedule {
  import opened Components
  import opened Systems

  /** Snapshot of every column of the world, the canvas and the living-entity counter. */
  datatype Columns = Columns(
    positions: seq<Option<Vec2>>,
    velocities: seq<Option<Vec2>>,
    accelerations: seq<Option<Vec2>>,
    alives: seq<Option<bool>>,
    healths: seq<Option<Usize>>,
    healthChanges: seq<Option<Isize>>,
    canvas: seq<seq<Status>>,
    livingEntities: nat)

  /** One invocation of a system; the two toggles carry the random draws of that invocation. */
  datatype SystemRun =
    | PositionUpdate
    | VelocityUpdate
    | ComponentRender
    | HealthUpdate
    | AccelerationUpdate(accelDraws: nat -> AccelDraw)
    | AliveCheck
    | HealthChanges(healthDraws: nat -> HealthDraw)
    | AliveEntitiesDisplay

  /** Which of the eight systems a run invokes. */
  function Kind(s: SystemRun): nat
  {
    match s
    case PositionUpdate => 0
    case VelocityUpdate => 1
    case ComponentRender => 2
    case HealthUpdate => 3
    case AccelerationUpdate(_) => 4
    case AliveCheck => 5
    case HealthChanges(_) => 6
    case AliveEntitiesDisplay => 7
  }

  /** True when two snapshots have columns of the same lengths. */
  predicate SameShape(w: Columns, v: Columns)
  {
    |v.positions| == |w.positions| && |v.velocities| == |w.velocities| &&
    |v.accelerations| == |w.accelerations| && |v.alives| == |w.alives| &&
    |v.healths| == |w.healths| && |v.healthChanges| == |w.healthChanges|
  }

  /** The effect of one system on the world; each system writes one column (or the canvas, or the counter). */
  function Run(w: Columns, s: SystemRun): (v: Columns)
    ensures SameShape(w, v)
    ensures forall i :: 0 <= i < |w.alives| && w.alives[i] == Some(false) ==> v.alives[i] == Some(false)
    ensures forall i :: 0 <= i < |w.alives| && v.alives[i] == Some(true) ==> w.alives[i] == Some(true)
  {
    match s
    case PositionUpdate => w.(positions := PositionUpdated(w.positions, w.velocities))
    case VelocityUpdate => w.(velocities := VelocityUpdated(w.velocities, w.accelerations))
    case ComponentRender => w.(canvas := RenderedCanvas(w.positions, w.alives, w.healths))
    case HealthUpdate => w.(healths := HealthUpdated(w.healths, w.healthChanges))
    case AccelerationUpdate(draws) => w.(accelerations := AccelerationToggled(w.accelerations, draws))
    case AliveCheck => w.(alives := AliveUpdated(w.alives, w.healths))
    case HealthChanges(draws) => w.(healthChanges := HealthChangesToggled(w.healthChanges, draws))
    case AliveEntitiesDisplay => w.(livingEntities := CountAlive(w.alives))
  }

  /** The effect of a whole schedule, run in order. */
  function RunAll(w: Columns, runs: seq<SystemRun>): (v: Columns)
    ensures SameShape(w, v)
    decreases |runs|
  {
    if runs == [] then w else RunAll(Run(w, runs[0]), runs[1..])
  }

  /**
   * One tick in submission order. The canvas printer is not a step: it only
   * reads the canvas and writes to the terminal.
   */
  function TickRuns(accelDraws: nat -> AccelDraw, healthDraws: nat -> HealthDraw): (runs: seq<SystemRun>)
    ensures |runs| == 8
    ensures forall i :: 0 <= i < |runs| ==> Kind(runs[i]) == i
    ensures runs[4] == AccelerationUpdate(accelDraws) && runs[6] == HealthChanges(healthDraws)
  {
    [PositionUpdate, VelocityUpdate, ComponentRender, HealthUpdate,
     AccelerationUpdate(accelDraws), AliveCheck, HealthChanges(healthDraws), AliveEntitiesDisplay]
  }

  /** The first five steps of a submission-order tick, up to the alive check. */
  function BeforeAliveCheck(w: Columns, accelDraws: nat -> AccelDraw): Columns
  {
    var w1 := Run(w, PositionUpdate);
    var w2 := Run(w1, VelocityUpdate);
    var w3 := Run(w2, ComponentRender);
    var w4 := Run(w3, HealthUpdate);
    Run(w4, AccelerationUpdate(accelDraws))
  }

  /** The last three steps of a submission-order tick, from the alive check on. */
  function FromAliveCheck(w5: Columns, healthDraws: nat -> HealthDraw): Columns
  {
    var w6 := Run(w5, AliveCheck);
    var w7 := Run(w6, HealthChanges(healthDraws));
    Run(w7, AliveEntitiesDisplay)
  }

  /** The submission-order tick, written out step by step. */
  function TickOf(w: Columns, accelDraws: nat -> AccelDraw, healthDraws: nat -> HealthDraw): Columns
  {
    FromAliveCheck(BeforeAliveCheck(w, accelDraws), healthDraws)
  }

  /** Running a schedule with a first step is running that step, then the rest. */
  lemma RunAllFirst(w: Columns, runs: seq<SystemRun>)
    requires runs != []
    ensures RunAll(w, runs) == RunAll(Run(w, runs[0]), runs[1..])
  {
  }

  lemma TickOfIsRunAll(w: Columns, accelDraws: nat -> AccelDraw, healthDraws: nat -> HealthDraw)
    ensures RunAll(w, TickRuns(accelDraws, healthDraws)) == TickOf(w, accelDraws, healthDraws)
  {
    var r0 := TickRuns(accelDraws, healthDraws);
    var r1, r2, r3, r4 := r0[1..], r0[2..], r0[3..], r0[4..];
    var r5, r6, r7, r8 := r0[5..], r0[6..], r0[7..], r0[8..];
    assert r1 == r0[1..] && r2 == r1[1..] && r3 == r2[1..] && r4 == r3[1..];
    assert r5 == r4[1..] && r6 == r5[1..] && r7 == r6[1..] && r8 == r7[1..] && r8 == [];
    var w1 := Run(w, PositionUpdate);
    var w2 := Run(w1, VelocityUpdate);
    var w3 := Run(w2, ComponentRender);
    var w4 := Run(w3, HealthUpdate);
    var w5 := Run(w4, AccelerationUpdate(accelDraws));
    assert w5 == BeforeAliveCheck(w, accelDraws);
    var w6 := Run(w5, AliveCheck);
    var w7 := Run(w6, HealthChanges(healthDraws));
    var w8 := Run(w7, AliveEntitiesDisplay);
    assert w8 == FromAliveCheck(w5, healthDraws);
    RunAllFirst(w, r0);
    RunAllFirst(w1, r1);
    RunAllFirst(w2, r2);
    RunAllFirst(w3, r3);
    RunAllFirst(w4, r4);
    RunAllFirst(w5, r5);
    RunAllFirst(w6, r6);
    RunAllFirst(w7, r7);
    assert RunAll(w8, r8) == w8;
  }

  /**
   * Monotonic death and no resurrection, for every schedule: no column
   * changes length, a false alive flag stays false and an alive flag that
   * ends true was true from the start.
   */
  lemma {:induction false} NoResurrection(w: Columns, runs: seq<SystemRun>)
    ensures SameShape(w, RunAll(w, runs))
    ensures forall i :: 0 <= i < |w.alives| && w.alives[i] == Some(false) ==> RunAll(w, runs).alives[i] == Some(false)
    ensures forall i :: 0 <= i < |w.alives| && RunAll(w, runs).alives[i] == Some(true) ==> w.alives[i] == Some(true)
    decreases |runs|
  {
    if runs != [] {
      NoResurrection(Run(w, runs[0]), runs[1..]);
    }
  }

  /** No schedule raises the number of living entities. */
  lemma LivingNeverRises(w: Columns, runs: seq<SystemRun>)
    ensures CountAlive(RunAll(w, runs).alives) <= CountAlive(w.alives)
  {
    NoResurrection(w, runs);
    CountAliveMonotone(w.alives, RunAll(w, runs).alives);
  }

  /** Every present position lies in the clamping rectangle. */
  predicate PositionsInBounds(w: Columns)
  {
    forall i :: 0 <= i < |w.positions| && w.positions[i].Some? ==> InBounds(w.positions[i].value)
  }

  /** Every present health is at most MAX_HEALTH. */
  predicate HealthsCapped(w: Columns)
  {
    forall i :: 0 <= i < |w.healths| && w.healths[i].Some? ==> w.healths[i].value <= MAX_HEALTH
  }

  /** Every present acceleration component and health change lies in {-1, 0, 1}. */
  predicate StepsUnit(w: Columns)
  {
    (forall i :: 0 <= i < |w.accelerations| && w.accelerations[i].Some? ==> UnitStep(w.accelerations[i].value)) &&
    (forall i :: 0 <= i < |w.healthChanges| && w.healthChanges[i].Some? ==> -1 <= w.healthChanges[i].value <= 1)
  }

  /** Positions, accelerations and health changes in range; healths may still exceed MAX_HEALTH. */
  predicate Bounded(w: Columns)
  {
    PositionsInBounds(w) && StepsUnit(w)
  }

  /** Every present value is in its range, healths included. */
  predicate Settled(w: Columns)
  {
    Bounded(w) && HealthsCapped(w)
  }

  /** Every system keeps positions, accelerations and health changes in range. */
  lemma RunKeepsBounded(w: Columns, s: SystemRun)
    requires Bounded(w)
    ensures Bounded(Run(w, s))
  {
  }

  /** Once positions, accelerations and health changes are in range, every schedule keeps them so. */
  lemma {:induction false} RunAllKeepsBounded(w: Columns, runs: seq<SystemRun>)
    requires Bounded(w)
    ensures Bounded(RunAll(w, runs))
    decreases |runs|
  {
    if runs != [] {
      RunKeepsBounded(w, runs[0]);
      RunAllKeepsBounded(Run(w, runs[0]), runs[1..]);
    }
  }

  /** Every system keeps present values in range. */
  lemma RunKeepsSettled(w: Columns, s: SystemRun)
    requires Settled(w)
    ensures Settled(Run(w, s))
  {
    RunKeepsBounded(w, s);
  }

  /** Once every present value is in range, every schedule keeps it so. */
  lemma {:induction false} RunAllKeepsSettled(w: Columns, runs: seq<SystemRun>)
    requires Settled(w)
    ensures Settled(RunAll(w, runs))
    decreases |runs|
  {
    if runs != [] {
      RunKeepsSettled(w, runs[0]);
      RunAllKeepsSettled(Run(w, runs[0]), runs[1..]);
    }
  }

  /** The last three steps of a tick leave healths alone, and only the alive check touches the alive flags. */
  lemma FromAliveCheckEffect(u: Columns, healthDraws: nat -> HealthDraw)
    ensures var v := FromAliveCheck(u, healthDraws);
      v.alives == AliveUpdated(u.alives, u.healths) && v.healths == u.healths &&
      v.livingEntities == CountAlive(v.alives)
  {
    var w6 := Run(u, AliveCheck);
    assert w6.alives == AliveUpdated(u.alives, u.healths) && w6.healths == u.healths;
    var w7 := Run(w6, HealthChanges(healthDraws));
    assert w7.alives == w6.alives && w7.healths == w6.healths;
  }

  /**
   * At the end of a submission-order tick every present alive flag whose
   * health is absent or 0 is false (along the common prefix of the two
   * columns).
   */
  lemma TickSettlesDeaths(w: Columns, accelDraws: nat -> AccelDraw, healthDraws: nat -> HealthDraw)
    ensures var v := TickOf(w, accelDraws, healthDraws);
      forall i :: 0 <= i < |v.alives| && i < |v.healths| && v.alives[i].Some? && Depleted(v.healths[i]) ==>
        v.alives[i] == Some(false)
  {
    FromAliveCheckEffect(BeforeAliveCheck(w, accelDraws), healthDraws);
  }

  /** At the end of a submission-order tick the counter holds the number of living entities. */
  lemma TickCountsLiving(w: Columns, accelDraws: nat -> AccelDraw, healthDraws: nat -> HealthDraw)
    ensures var v := TickOf(w, accelDraws, healthDraws);
      v.livingEntities == |set i | 0 <= i < |v.alives| && v.alives[i] == Some(true)|
  {
    FromAliveCheckEffect(BeforeAliveCheck(w, accelDraws), healthDraws);
    CountAliveIsCardinality(TickOf(w, accelDraws, healthDraws).alives);
  }

  /** The first five steps of a tick redraw the canvas, so their result does not depend on the canvas before them. */
  lemma BeforeAliveCheckForgetsCanvas(w: Columns, accelDraws: nat -> AccelDraw, old_canvas: seq<seq<Status>>)
    ensures BeforeAliveCheck(w.(canvas := old_canvas), accelDraws) == BeforeAliveCheck(w, accelDraws)
  {
    var u := w.(canvas := old_canvas);
    var u2 := Run(Run(u, PositionUpdate), VelocityUpdate);
    var w2 := Run(Run(w, PositionUpdate), VelocityUpdate);
    assert u2 == w2.(canvas := old_canvas);
    assert Run(u2, ComponentRender) == Run(w2, ComponentRender);
  }

  /** The canvas at the end of a tick depends only on the columns, never on the canvas before it. */
  lemma TickForgetsCanvas(w: Columns, accelDraws: nat -> AccelDraw, healthDraws: nat -> HealthDraw, old_canvas: seq<seq<Status>>)
    ensures RunAll(w, TickRuns(accelDraws, healthDraws)) == RunAll(w.(canvas := old_canvas), TickRuns(accelDraws, healthDraws))
  {
    TickOfIsRunAll(w, accelDraws, healthDraws);
    TickOfIsRunAll(w.(canvas := old_canvas), accelDraws, healthDraws);
    BeforeAliveCheckForgetsCanvas(w, accelDraws, old_canvas);
  }

  /** Up to the alive check, only the acceleration toggle touches accelerations, and nothing touches health changes. */
  lemma BeforeAliveCheckToggles(w: Columns, accelDraws: nat -> AccelDraw)
    ensures var u := BeforeAliveCheck(w, accelDraws);
      u.accelerations == AccelerationToggled(w.accelerations, accelDraws) && u.healthChanges == w.healthChanges
  {
    var w1 := Run(w, PositionUpdate);
    assert w1.accelerations == w.accelerations && w1.healthChanges == w.healthChanges;
    var w2 := Run(w1, VelocityUpdate);
    assert w2.accelerations == w.accelerations && w2.healthChanges == w.healthChanges;
    var w3 := Run(w2, ComponentRender);
    assert w3.accelerations == w.accelerations && w3.healthChanges == w.healthChanges;
    var w4 := Run(w3, HealthUpdate);
    assert w4.accelerations == w.accelerations && w4.healthChanges == w.healthChanges;
  }

  /** From the alive check on, only the health-change toggle touches health changes, and nothing touches accelerations. */
  lemma FromAliveCheckToggles(u: Columns, healthDraws: nat -> HealthDraw)
    ensures var v := FromAliveCheck(u, healthDraws);
      v.accelerations == u.accelerations && v.healthChanges == HealthChangesToggled(u.healthChanges, healthDraws)
  {
    var w6 := Run(u, AliveCheck);
    assert w6.accelerations == u.accelerations && w6.healthChanges == u.healthChanges;
    var w7 := Run(w6, HealthChanges(healthDraws));
    assert w7.accelerations == u.accelerations;
  }

  /** Over a submission-order tick, accelerations and health changes are changed by their toggles alone. */
  lemma TickTogglesOnly(w: Columns, accelDraws: nat -> AccelDraw, healthDraws: nat -> HealthDraw)
    ensures var v := RunAll(w, TickRuns(accelDraws, healthDraws));
      v.accelerations == AccelerationToggled(w.accelerations, accelDraws) &&
      v.healthChanges == HealthChangesToggled(w.healthChanges, healthDraws)
  {
    TickOfIsRunAll(w, accelDraws, healthDraws);
    BeforeAliveCheckToggles(w, accelDraws);
    FromAliveCheckToggles(BeforeAliveCheck(w, accelDraws), healthDraws);
  }

  /** Up to the alive check, the healths are those the health update computes. */
  lemma BeforeAliveCheckHealths(w: Columns, accelDraws: nat -> AccelDraw)
    ensures BeforeAliveCheck(w, accelDraws).healths == HealthUpdated(w.healths, w.healthChanges)
  {
    var w1 := Run(w, PositionUpdate);
    RunKeepsAlivesAndHealths(w, PositionUpdate);
    var w2 := Run(w1, VelocityUpdate);
    RunKeepsAlivesAndHealths(w1, VelocityUpdate);
    var w3 := Run(w2, ComponentRender);
    RunKeepsAlivesAndHealths(w2, ComponentRender);
    assert w3.healthChanges == w.healthChanges;
    var w4 := Run(w3, HealthUpdate);
    RunKeepsAlivesAndHealths(w4, AccelerationUpdate(accelDraws));
  }

  /** Over a submission-order tick, the healths change by the health update alone. */
  lemma TickHealths(w: Columns, accelDraws: nat -> AccelDraw, healthDraws: nat -> HealthDraw)
    ensures RunAll(w, TickRuns(accelDraws, healthDraws)).healths == HealthUpdated(w.healths, w.healthChanges)
  {
    TickOfIsRunAll(w, accelDraws, healthDraws);
    BeforeAliveCheckHealths(w, accelDraws);
    FromAliveCheckEffect(BeforeAliveCheck(w, accelDraws), healthDraws);
  }

  /**
   * Accelerations have period two over ticks: one present at tick N is
   * present at tick N + 2, with the draw of tick N + 1, and one absent at
   * tick N is absent at tick N + 2.
   */
  lemma AccelerationPeriodTwo(w: Columns, a1: nat -> AccelDraw, h1: nat -> HealthDraw, a2: nat -> AccelDraw, h2: nat -> HealthDraw)
    ensures var v := RunAll(RunAll(w, TickRuns(a1, h1)), TickRuns(a2, h2));
      |v.accelerations| == |w.accelerations| &&
      forall i :: 0 <= i < |w.accelerations| ==>
        v.accelerations[i] == if w.accelerations[i].Some? then Some(AccelerationOf(a2(i))) else None
  {
    TickTogglesOnly(w, a1, h1);
    TickTogglesOnly(RunAll(w, TickRuns(a1, h1)), a2, h2);
  }

  /** Health changes have period two over ticks, in the same way as accelerations. */
  lemma HealthChangePeriodTwo(w: Columns, a1: nat -> AccelDraw, h1: nat -> HealthDraw, a2: nat -> AccelDraw, h2: nat -> HealthDraw)
    ensures var v := RunAll(RunAll(w, TickRuns(a1, h1)), TickRuns(a2, h2));
      |v.healthChanges| == |w.healthChanges| &&
      forall i :: 0 <= i < |w.healthChanges| ==>
        v.healthChanges[i] == if w.healthChanges[i].Some? then Some(HealthDeltaOf(h2(i))) else None
  {
    TickTogglesOnly(w, a1, h1);
    TickTogglesOnly(RunAll(w, TickRuns(a1, h1)), a2, h2);
  }

  /** Only the alive check writes the alive flags and only the health update writes the healths. */
  lemma RunKeepsAlivesAndHealths(w: Columns, s: SystemRun)
    requires !s.AliveCheck? && !s.HealthUpdate?
    ensures Run(w, s).alives == w.alives && Run(w, s).healths == w.healths
  {
  }

  /**
   * The eight systems of a tick with the alive check run before the health
   * update rather than after it. With three workers this happens when the
   * health update's worker is delayed before it takes its lock.
   */
  function AliveCheckEarlyRuns(accelDraws: nat -> AccelDraw, healthDraws: nat -> HealthDraw): (runs: seq<SystemRun>)
    ensures |runs| == 8
    ensures Kind(runs[3]) == 4 && Kind(runs[4]) == 5 && Kind(runs[5]) == 3
    ensures forall i :: 0 <= i < |runs| && (i < 3 || 5 < i) ==> Kind(runs[i]) == i
    ensures runs[3] == AccelerationUpdate(accelDraws) && runs[6] == HealthChanges(healthDraws)
  {
    [PositionUpdate, VelocityUpdate, ComponentRender, AccelerationUpdate(accelDraws),
     AliveCheck, HealthUpdate, HealthChanges(healthDraws), AliveEntitiesDisplay]
  }

  /** The first five steps of the early-alive-check schedule, up to and including the alive check. */
  function BeforeHealthUpdate(w: Columns, accelDraws: nat -> AccelDraw): Columns
  {
    Run(Run(Run(Run(Run(w, PositionUpdate), VelocityUpdate), ComponentRender), AccelerationUpdate(accelDraws)), AliveCheck)
  }

  /** Running the early-alive-check schedule is running its eight steps one after the other. */
  lemma AliveCheckEarlySteps(w: Columns, accelDraws: nat -> AccelDraw, healthDraws: nat -> HealthDraw)
    ensures RunAll(w, AliveCheckEarlyRuns(accelDraws, healthDraws)) ==
      Run(Run(Run(BeforeHealthUpdate(w, accelDraws), HealthUpdate), HealthChanges(healthDraws)), AliveEntitiesDisplay)
  {
    var r0 := AliveCheckEarlyRuns(accelDraws, healthDraws);
    var r1, r2, r3, r4 := r0[1..], r0[2..], r0[3..], r0[4..];
    var r5, r6, r7, r8 := r0[5..], r0[6..], r0[7..], r0[8..];
    assert r1 == r0[1..] && r2 == r1[1..] && r3 == r2[1..] && r4 == r3[1..];
    assert r5 == r4[1..] && r6 == r5[1..] && r7 == r6[1..] && r8 == r7[1..] && r8 == [];
    var w1 := Run(w, PositionUpdate);
    var w2 := Run(w1, VelocityUpdate);
    var w3 := Run(w2, ComponentRender);
    var w4 := Run(w3, AccelerationUpdate(accelDraws));
    var w5 := Run(w4, AliveCheck);
    assert w5 == BeforeHealthUpdate(w, accelDraws);
    var w6 := Run(w5, HealthUpdate);
    var w7 := Run(w6, HealthChanges(healthDraws));
    var w8 := Run(w7, AliveEntitiesDisplay);
    RunAllFirst(w, r0);
    RunAllFirst(w1, r1);
    RunAllFirst(w2, r2);
    RunAllFirst(w3, r3);
    RunAllFirst(w4, r4);
    RunAllFirst(w5, r5);
    RunAllFirst(w6, r6);
    RunAllFirst(w7, r7);
    assert RunAll(w8, r8) == w8;
  }

  /** Up to the alive check, an entity of health 1 and change -1 stays alive with health 1. */
  lemma AliveCheckEarlyFirstSteps(w: Columns, accelDraws: nat -> AccelDraw)
    requires w.alives == [Some(true)] && w.healths == [Some(1)] && w.healthChanges == [Some(-1)]
    ensures var w5 := BeforeHealthUpdate(w, accelDraws);
      w5.alives == [Some(true)] && w5.healths == [Some(1)] && w5.healthChanges == [Some(-1)]
  {
    var w1 := Run(w, PositionUpdate);
    RunKeepsAlivesAndHealths(w, PositionUpdate);
    var w2 := Run(w1, VelocityUpdate);
    RunKeepsAlivesAndHealths(w1, VelocityUpdate);
    var w3 := Run(w2, ComponentRender);
    RunKeepsAlivesAndHealths(w2, ComponentRender);
    var w4 := Run(w3, AccelerationUpdate(accelDraws));
    RunKeepsAlivesAndHealths(w3, AccelerationUpdate(accelDraws));
    assert w4.healthChanges == [Some(-1)];
    assert AliveUpdated([Some(true)], [Some(1)])[0] == Some(true);
  }

  /** The last three steps then drop the health to 0 and count the entity as living. */
  lemma AliveCheckEarlyLastSteps(u: Columns, healthDraws: nat -> HealthDraw)
    requires u.alives == [Some(true)] && u.healths == [Some(1)] && u.healthChanges == [Some(-1)]
    ensures var v := Run(Run(Run(u, HealthUpdate), HealthChanges(healthDraws)), AliveEntitiesDisplay);
      v.alives == [Some(true)] && v.healths == [Some(0)] && v.livingEntities == 1
  {
    var u6 := Run(u, HealthUpdate);
    assert HealthUpdated([Some(1)], [Some(-1)])[0] == Some(0);
    assert u6.healths == [Some(0)] && u6.alives == [Some(true)];
    var u7 := Run(u6, HealthChanges(healthDraws));
    RunKeepsAlivesAndHealths(u6, HealthChanges(healthDraws));
    assert CountAlive(u7.alives) == 1;
  }

  /**
   * With the alive check run before the health update, an entity of health
   * 1 and change -1 ends the tick with health 0, still alive and counted,
   * so `TickSettlesDeaths` holds for the submission order but not for every
   * serialisation.
   */
  lemma AliveCheckEarlyLeavesDeathUnsettled(accelDraws: nat -> AccelDraw, healthDraws: nat -> HealthDraw)
    ensures var v := RunAll(Columns([], [], [], [Some(true)], [Some(1)], [Some(-1)], [], 0),
                            AliveCheckEarlyRuns(accelDraws, healthDraws));
      v.alives == [Some(true)] && v.healths == [Some(0)] && v.livingEntities == 1
  {
    var w := Columns([], [], [], [Some(true)], [Some(1)], [Some(-1)], [], 0);
    AliveCheckEarlySteps(w, accelDraws, healthDraws);
    AliveCheckEarlyFirstSteps(w, accelDraws);
    AliveCheckEarlyLastSteps(BeforeHealthUpdate(w, accelDraws), healthDraws);
  }

  /** A display step leaves the counter equal to the number of living entities. */
  lemma DisplayCountsLiving(u: Columns)
    ensures var v := Run(u, AliveEntitiesDisplay);
      v.livingEntities == |set i | 0 <= i < |v.alives| && v.alives[i] == Some(true)|
  {
    CountAliveIsCardinality(u.alives);
  }

  /** The display still runs last in the early-alive-check order, so the counter stays exact there. */
  lemma AliveCheckEarlyCountsLiving(w: Columns, accelDraws: nat -> AccelDraw, healthDraws: nat -> HealthDraw)
    ensures var v := RunAll(w, AliveCheckEarlyRuns(accelDraws, healthDraws));
      v.livingEntities == |set i | 0 <= i < |v.alives| && v.alives[i] == Some(true)|
  {
    AliveCheckEarlySteps(w, accelDraws, healthDraws);
    DisplayCountsLiving(Run(Run(BeforeHealthUpdate(w, accelDraws), HealthUpdate), HealthChanges(healthDraws)));
  }
}
