/**
 * Initial contents of the columns, built from the random draws made for
 * each entity. The random generator itself is a parameter: `EntityDraw`
 * holds what it returned while one entity was set up.
 */
module Setup {
  import opened Components
  import opened Systems
  import opened Schedule

  /** Everything drawn for one entity when the world is built. */
  datatype EntityDraw = EntityDraw(
    hasPosition: bool, px: Isize, py: Isize,
    extraPosition: Option<Vec2>,
    hasVelocity: bool,
    hasAcceleration: bool,
    alive: bool,
    hasHealth: bool, healthDraw: Usize)

  /** The entity's position: a clamped random point, or absent. */
  function FirstPosition(d: EntityDraw): (p: Option<Vec2>)
    ensures p.Some? ==> InBounds(p.value)
  {
    if d.hasPosition then Some(Vec2(Clamp(d.px, MIN_X, MAX_X), Clamp(d.py, MIN_Y, MAX_Y))) else None
  }

  /**
   * The position column as the setup loop fills it: every entity pushes
   * its position and then a second, unclamped random slot.
   */
  function PositionsAsWritten(ds: seq<EntityDraw>): (ps: seq<Option<Vec2>>)
    ensures |ps| == 2 * |ds|
    decreases |ds|
  {
    if ds == [] then []
    else PositionsAsWritten(ds[..|ds| - 1]) + [FirstPosition(ds[|ds| - 1]), ds[|ds| - 1].extraPosition]
  }

  /** Setting up one more entity appends its two slots to the column. */
  lemma PositionsAsWrittenStep(ds: seq<EntityDraw>, i: nat)
    requires i < |ds|
    ensures PositionsAsWritten(ds[..i + 1]) == PositionsAsWritten(ds[..i]) + [FirstPosition(ds[i]), ds[i].extraPosition]
  {
    assert ds[..i + 1][..i] == ds[..i];
  }

  /** Entity k's position lands at index 2k and its stray slot at 2k + 1: the column is twice as long. */
  lemma {:induction false} PositionsAsWrittenLayout(ds: seq<EntityDraw>)
    ensures |PositionsAsWritten(ds)| == 2 * |ds|
    ensures forall k :: 0 <= k < |ds| ==>
      PositionsAsWritten(ds)[2 * k] == FirstPosition(ds[k]) &&
      PositionsAsWritten(ds)[2 * k + 1] == ds[k].extraPosition
    decreases |ds|
  {
    if ds != [] {
      PositionsAsWrittenLayout(ds[..|ds| - 1]);
    }
  }

  /**
   * Two entities, the first with a stray slot far outside the canvas: the
   * slot every system reads as entity 1's position is that stray value, not
   * entity 1's own clamped position, and it is out of bounds.
   */
  lemma PositionsAsWrittenMisaligned()
    ensures var ds := [EntityDraw(true, 0, 0, Some(Vec2(1000, 0)), true, true, true, true, 5),
                       EntityDraw(true, 3, 1, None, true, true, true, true, 5)];
      var ps := PositionsAsWritten(ds);
      |ps| == 4 && ps[1] != FirstPosition(ds[1]) && ps[1].Some? && !InBounds(ps[1].value)
  {
    var ds := [EntityDraw(true, 0, 0, Some(Vec2(1000, 0)), true, true, true, true, 5),
               EntityDraw(true, 3, 1, None, true, true, true, true, 5)];
    PositionsAsWrittenLayout(ds);
  }

  /** The initial health: a random value below 100, or absent. */
  function FirstHealth(d: EntityDraw): (h: Option<Usize>)
    ensures h.Some? ==> h.value < 100
  {
    if d.hasHealth then Some(d.healthDraw % 100) else None
  }

  /**
   * The initial world with one slot per entity in every column: position,
   * velocity (0, 0) or absent, acceleration (0, 0) or absent, a present
   * alive flag, health, no health change; an all-Dead canvas and a count of 0.
   */
  function InitialColumns(ds: seq<EntityDraw>): (w: Columns)
    ensures |w.positions| == |w.velocities| == |w.accelerations| == |w.alives| == |w.healths| == |w.healthChanges| == |ds|
    ensures forall k :: 0 <= k < |ds| ==> w.alives[k].Some? && w.healthChanges[k].None?
    ensures w.canvas == seq(HEIGHT, r => seq(WIDTH, c => Dead))
    ensures w.livingEntities == 0
  {
    Columns(
      seq(|ds|, k requires 0 <= k < |ds| => FirstPosition(ds[k])),
      seq(|ds|, k requires 0 <= k < |ds| => if ds[k].hasVelocity then Some(Vec2(0, 0)) else None),
      seq(|ds|, k requires 0 <= k < |ds| => if ds[k].hasAcceleration then Some(Vec2(0, 0)) else None),
      seq(|ds|, k requires 0 <= k < |ds| => Some(ds[k].alive)),
      seq(|ds|, k requires 0 <= k < |ds| => FirstHealth(ds[k])),
      seq(|ds|, k => None),
      seq(HEIGHT, r => seq(WIDTH, c => Dead)),
      0)
  }

  /**
   * In the initial world every column has one slot per entity, slot k is
   * entity k's own position, and every present position, acceleration and
   * health change is in range; only healths may exceed MAX_HEALTH, and one
   * drawn as 50 does.
   */
  lemma InitialColumnsAligned(ds: seq<EntityDraw>)
    ensures var w := InitialColumns(ds);
      |w.positions| == |w.velocities| == |w.accelerations| == |w.alives| == |w.healths| == |w.healthChanges| == |ds|
    ensures forall k :: 0 <= k < |ds| ==> InitialColumns(ds).positions[k] == FirstPosition(ds[k])
    ensures Bounded(InitialColumns(ds))
    ensures (exists k :: 0 <= k < |ds| && ds[k].hasHealth && ds[k].healthDraw == 50) ==> !HealthsCapped(InitialColumns(ds))
  {
    if k :| 0 <= k < |ds| && ds[k].hasHealth && ds[k].healthDraw == 50 {
      assert InitialColumns(ds).healths[k] == Some(50);
    }
  }

  /** From the initial world, positions stay in bounds, and accelerations and health changes in range, under every schedule. */
  lemma StartStaysBounded(ds: seq<EntityDraw>, runs: seq<SystemRun>)
    ensures Bounded(RunAll(InitialColumns(ds), runs))
  {
    InitialColumnsAligned(ds);
    RunAllKeepsBounded(InitialColumns(ds), runs);
  }

  /**
   * Two submission-order ticks settle every health: the first gives every
   * entity a health change, and the second clamps every present health.
   * From then on every schedule keeps the world settled.
   */
  lemma SettledAfterTwoTicks(ds: seq<EntityDraw>, a1: nat -> AccelDraw, h1: nat -> HealthDraw,
                             a2: nat -> AccelDraw, h2: nat -> HealthDraw, runs: seq<SystemRun>)
    ensures Settled(RunAll(RunAll(InitialColumns(ds), TickRuns(a1, h1)), TickRuns(a2, h2)))
    ensures Settled(RunAll(RunAll(RunAll(InitialColumns(ds), TickRuns(a1, h1)), TickRuns(a2, h2)), runs))
  {
    var w1 := RunAll(InitialColumns(ds), TickRuns(a1, h1));
    var w2 := RunAll(w1, TickRuns(a2, h2));
    FirstTickGivesChanges(ds, a1, h1);
    PairedHealthsCapped(w1, a2, h2);
    StartStaysBounded(ds, TickRuns(a1, h1));
    RunAllKeepsBounded(w1, TickRuns(a2, h2));
    RunAllKeepsSettled(w2, runs);
  }

  /** After the first tick every entity has a health change. */
  lemma FirstTickGivesChanges(ds: seq<EntityDraw>, a1: nat -> AccelDraw, h1: nat -> HealthDraw)
    ensures var w1 := RunAll(InitialColumns(ds), TickRuns(a1, h1));
      |w1.healthChanges| == |w1.healths| && forall k :: 0 <= k < |w1.healthChanges| ==> w1.healthChanges[k].Some?
  {
    TickTogglesOnly(InitialColumns(ds), a1, h1);
  }

  /** A tick from a world where every health has a paired change caps every present health. */
  lemma PairedHealthsCapped(w: Columns, accelDraws: nat -> AccelDraw, healthDraws: nat -> HealthDraw)
    requires |w.healthChanges| == |w.healths| && forall k :: 0 <= k < |w.healthChanges| ==> w.healthChanges[k].Some?
    ensures HealthsCapped(RunAll(w, TickRuns(accelDraws, healthDraws)))
  {
    TickHealths(w, accelDraws, healthDraws);
    var hs := HealthUpdated(w.healths, w.healthChanges);
    forall k | 0 <= k < |hs| && hs[k].Some? ensures hs[k].value <= MAX_HEALTH {
      assert Paired(w.healths, w.healthChanges, k);
    }
  }
}
