/**
 * The world and its systems as state-changing code: each component column
 * is a field that a system rewrites entry by entry in one pass, with
 * exclusive access to the columns it writes. Each pass is proved to leave
 * its column equal to the corresponding function of module Systems.
 */
module Simulation {
  import opened Components
  import opened Systems
  import opened Schedule
  import opened Setup

  /** Two grids with HEIGHT rows of WIDTH cells that agree on every cell are equal. */
  lemma SameRows(a: seq<seq<Status>>, b: seq<seq<Status>>)
    requires |a| == |b| == HEIGHT
    requires forall r :: 0 <= r < HEIGHT ==> |a[r]| == |b[r]| == WIDTH
    requires forall r, c :: 0 <= r < HEIGHT && 0 <= c < WIDTH ==> a[r][c] == b[r][c]
    ensures a == b
  {
    forall r | 0 <= r < HEIGHT ensures a[r] == b[r] {
      assert forall c :: 0 <= c < WIDTH ==> a[r][c] == b[r][c];
    }
  }

  /**
   * The setup loop: one push per entity onto every column, and with
   * `strayPush` a second, stray push onto the position column, as the loop
   * is written.
   */
  method SetupLoop(draws: seq<EntityDraw>, strayPush: bool)
    returns (ps: seq<Option<Vec2>>, vs: seq<Option<Vec2>>, acs: seq<Option<Vec2>>,
             al: seq<Option<bool>>, hs: seq<Option<Usize>>, ds: seq<Option<Isize>>)
    ensures strayPush ==> ps == PositionsAsWritten(draws)
    ensures !strayPush ==> |ps| == |draws| && forall k :: 0 <= k < |draws| ==> ps[k] == FirstPosition(draws[k])
    ensures |vs| == |acs| == |al| == |hs| == |ds| == |draws|
    ensures forall k :: 0 <= k < |draws| ==> vs[k] == if draws[k].hasVelocity then Some(Vec2(0, 0)) else None
    ensures forall k :: 0 <= k < |draws| ==> acs[k] == if draws[k].hasAcceleration then Some(Vec2(0, 0)) else None
    ensures forall k :: 0 <= k < |draws| ==> al[k] == Some(draws[k].alive)
    ensures forall k :: 0 <= k < |draws| ==> hs[k] == FirstHealth(draws[k])
    ensures forall k :: 0 <= k < |draws| ==> ds[k] == None
  {
    ps, vs, acs, al, hs, ds := [], [], [], [], [], [];
    var i := 0;
    while i < |draws|
      invariant 0 <= i <= |draws|
      invariant strayPush ==> ps == PositionsAsWritten(draws[..i])
      invariant !strayPush ==> |ps| == i && forall k :: 0 <= k < i ==> ps[k] == FirstPosition(draws[k])
      invariant |vs| == |acs| == |al| == |hs| == |ds| == i
      invariant forall k :: 0 <= k < i ==> vs[k] == if draws[k].hasVelocity then Some(Vec2(0, 0)) else None
      invariant forall k :: 0 <= k < i ==> acs[k] == if draws[k].hasAcceleration then Some(Vec2(0, 0)) else None
      invariant forall k :: 0 <= k < i ==> al[k] == Some(draws[k].alive)
      invariant forall k :: 0 <= k < i ==> hs[k] == FirstHealth(draws[k])
      invariant forall k :: 0 <= k < i ==> ds[k] == None
    {
      var d := draws[i];
      ps := ps + [FirstPosition(d)];
      if strayPush {
        ps := ps + [d.extraPosition];
        PositionsAsWrittenStep(draws, i);
      }
      vs := vs + [if d.hasVelocity then Some(Vec2(0, 0)) else None];
      acs := acs + [if d.hasAcceleration then Some(Vec2(0, 0)) else None];
      al := al + [Some(d.alive)];
      hs := hs + [FirstHealth(d)];
      ds := ds + [None];
      i := i + 1;
    }
    assert draws[..i] == draws;
  }

  /** One step of the render pass: entity i, if it is drawn with health of at least 1, writes its status into its cell. */
  method PaintEntity(grid: array2<Status>, ps: seq<Option<Vec2>>, al: seq<Option<bool>>, hs: seq<Option<Usize>>, i: nat)
    requires grid.Length0 == HEIGHT && grid.Length1 == WIDTH
    requires i < RenderLen(ps, al, hs)
    requires forall r, c :: 0 <= r < HEIGHT && 0 <= c < WIDTH ==> grid[r, c] == CellAfter(ps, al, hs, i, Cell(r, c))
    modifies grid
    ensures forall r, c :: 0 <= r < HEIGHT && 0 <= c < WIDTH ==> grid[r, c] == CellAfter(ps, al, hs, i + 1, Cell(r, c))
  {
    if Drawn(ps[i], al[i], hs[i]) {
      var cell := CellOf(ps[i].value);
      var status := Classify(hs[i].value);
      if status != Dead {
        grid[cell.row, cell.col] := status;
      }
    }
  }

  class World {
    var positions: seq<Option<Vec2>>
    var velocities: seq<Option<Vec2>>
    var accelerations: seq<Option<Vec2>>
    var alives: seq<Option<bool>>
    var healths: seq<Option<Usize>>
    var healthChanges: seq<Option<Isize>>
    var canvas: array2<Status>
    var livingEntities: nat

    /** The canvas always has HEIGHT rows and WIDTH columns. */
    ghost predicate Valid()
      reads this`canvas
    {
      canvas.Length0 == HEIGHT && canvas.Length1 == WIDTH
    }

    /** The canvas as rows of statuses. */
    ghost function CanvasRows(): (rows: seq<seq<Status>>)
      reads this`canvas, canvas
      requires Valid()
      ensures |rows| == HEIGHT && forall r :: 0 <= r < HEIGHT ==> |rows[r]| == WIDTH
      ensures forall r, c :: 0 <= r < HEIGHT && 0 <= c < WIDTH ==> rows[r][c] == canvas[r, c]
    {
      var g := canvas;
      seq(HEIGHT, r requires 0 <= r < HEIGHT reads g => seq(WIDTH, c requires 0 <= c < WIDTH reads g => g[r, c]))
    }

    /** The whole state of the world as a value. */
    ghost function Snapshot(): Columns
      reads this, canvas
      requires Valid()
    {
      Columns(positions, velocities, accelerations, alives, healths, healthChanges, CanvasRows(), livingEntities)
    }

    /**
     * Builds the corrected world from the draws made for each entity, with
     * one slot per entity in every column; `NewAsWritten` builds the layout
     * the setup loop actually produces.
     */
    constructor New(draws: seq<EntityDraw>)
      ensures Valid() && fresh(canvas)
      ensures Snapshot() == InitialColumns(draws)
    {
      var ps, vs, acs, al, hs, ds := SetupLoop(draws, false);
      positions, velocities, accelerations := ps, vs, acs;
      alives, healths, healthChanges := al, hs, ds;
      canvas := new Status[HEIGHT, WIDTH]((r, c) => Dead);
      livingEntities := 0;
      new;
      SameRows(CanvasRows(), seq(HEIGHT, r => seq(WIDTH, c => Dead)));
    }

    /**
     * Builds the world as the setup loop is written: every entity pushes its
     * own position and then a stray random slot onto the position column,
     * which therefore has two slots per entity.
     */
    constructor NewAsWritten(draws: seq<EntityDraw>)
      ensures Valid() && fresh(canvas)
      ensures Snapshot() == InitialColumns(draws).(positions := PositionsAsWritten(draws))
    {
      var ps, vs, acs, al, hs, ds := SetupLoop(draws, true);
      positions, velocities, accelerations := ps, vs, acs;
      alives, healths, healthChanges := al, hs, ds;
      canvas := new Status[HEIGHT, WIDTH]((r, c) => Dead);
      livingEntities := 0;
      new;
      SameRows(CanvasRows(), seq(HEIGHT, r => seq(WIDTH, c => Dead)));
    }

    /** Moves every entity that has a velocity, clamping the new position to the bounds. */
    method PositionUpdateSystem()
      requires Valid()
      modifies this`positions
      ensures positions == PositionUpdated(old(positions), velocities)
      ensures Valid() && Snapshot() == Run(old(Snapshot()), PositionUpdate)
    {
      var n := Min(|positions|, |velocities|);
      var i := 0;
      while i < n
        invariant 0 <= i <= n
        invariant |positions| == |old(positions)|
        invariant forall k :: 0 <= k < i ==> positions[k] == ZipEntry(old(positions)[k], velocities[k], PositionStep)
        invariant forall k :: i <= k < |positions| ==> positions[k] == old(positions)[k]
      {
        if positions[i].Some? && velocities[i].Some? {
          var p, v := positions[i].value, velocities[i].value;
          positions := positions[i := Some(Vec2(Clamp(p.x + v.x, MIN_X, MAX_X), Clamp(p.y + v.y, MIN_Y, MAX_Y)))];
        }
        i := i + 1;
      }
    }

    /** Accelerates every entity that has an acceleration; velocities are not clamped. */
    method VelocityUpdateSystem()
      requires Valid()
      modifies this`velocities
      ensures velocities == VelocityUpdated(old(velocities), accelerations)
      ensures Valid() && Snapshot() == Run(old(Snapshot()), VelocityUpdate)
    {
      var n := Min(|velocities|, |accelerations|);
      var i := 0;
      while i < n
        invariant 0 <= i <= n
        invariant |velocities| == |old(velocities)|
        invariant forall k :: 0 <= k < i ==> velocities[k] == ZipEntry(old(velocities)[k], accelerations[k], VelocityStep)
        invariant forall k :: i <= k < |velocities| ==> velocities[k] == old(velocities)[k]
      {
        if velocities[i].Some? && accelerations[i].Some? {
          var v, a := velocities[i].value, accelerations[i].value;
          velocities := velocities[i := Some(Vec2(v.x + a.x, v.y + a.y))];
        }
        i := i + 1;
      }
    }

    /**
     * Draws every visible entity into a fresh canvas, then replaces the
     * canvas with it. An entity of health 0 writes nothing.
     */
    method ComponentRenderSystem()
      requires Valid()
      modifies this`canvas
      ensures Valid() && fresh(canvas)
      ensures Snapshot() == Run(old(Snapshot()), ComponentRender)
      ensures forall r, c :: 0 <= r < HEIGHT && 0 <= c < WIDTH ==>
        canvas[r, c] == CellAfter(positions, alives, healths, RenderLen(positions, alives, healths), Cell(r, c))
    {
      var grid := new Status[HEIGHT, WIDTH]((r, c) => Dead);
      var n := RenderLen(positions, alives, healths);
      var i := 0;
      while i < n
        invariant 0 <= i <= n
        invariant forall r, c :: 0 <= r < HEIGHT && 0 <= c < WIDTH ==>
          grid[r, c] == CellAfter(positions, alives, healths, i, Cell(r, c))
      {
        PaintEntity(grid, positions, alives, healths, i);
        i := i + 1;
      }
      canvas := grid;
      SameRows(CanvasRows(), RenderedCanvas(positions, alives, healths));
    }

    /** Applies every present health change to a present health, clamped to [0, MAX_HEALTH]. */
    method HealthUpdateSystem()
      requires Valid()
      modifies this`healths
      ensures healths == HealthUpdated(old(healths), healthChanges)
      ensures Valid() && Snapshot() == Run(old(Snapshot()), HealthUpdate)
    {
      var n := Min(|healths|, |healthChanges|);
      var i := 0;
      while i < n
        invariant 0 <= i <= n
        invariant |healths| == |old(healths)|
        invariant forall k :: 0 <= k < i ==> healths[k] == ZipEntry(old(healths)[k], healthChanges[k], HealthStep)
        invariant forall k :: i <= k < |healths| ==> healths[k] == old(healths)[k]
      {
        if healths[i].Some? && healthChanges[i].Some? {
          var h := SaturatingAddSigned(healths[i].value, healthChanges[i].value);
          healths := healths[i := Some(Clamp(h, 0, MAX_HEALTH))];
        }
        i := i + 1;
      }
    }

    /** Clears every present acceleration and draws a new one for every absent one. */
    method AccelerationUpdateSystem(draws: nat -> AccelDraw)
      requires Valid()
      modifies this`accelerations
      ensures accelerations == AccelerationToggled(old(accelerations), draws)
      ensures Valid() && Snapshot() == Run(old(Snapshot()), AccelerationUpdate(draws))
    {
      var i := 0;
      while i < |accelerations|
        invariant 0 <= i <= |accelerations| == |old(accelerations)|
        invariant forall k :: 0 <= k < i ==>
          accelerations[k] == if old(accelerations)[k].Some? then None else Some(AccelerationOf(draws(k)))
        invariant forall k :: i <= k < |accelerations| ==> accelerations[k] == old(accelerations)[k]
      {
        match accelerations[i] {
          case Some(_) =>
            accelerations := accelerations[i := None];
          case None =>
            var leftRight := AxisOf(draws(i).leftRight);
            var upDown := AxisOf(draws(i).upDown);
            accelerations := accelerations[i := Some(Vec2(leftRight, upDown))];
        }
        i := i + 1;
      }
    }

    /** Marks dead every entity whose health is absent or 0; never marks one alive. */
    method AliveSystem()
      requires Valid()
      modifies this`alives
      ensures alives == AliveUpdated(old(alives), healths)
      ensures Valid() && Snapshot() == Run(old(Snapshot()), AliveCheck)
    {
      var n := Min(|alives|, |healths|);
      var i := 0;
      while i < n
        invariant 0 <= i <= n
        invariant |alives| == |old(alives)|
        invariant forall k :: 0 <= k < i ==> alives[k] == AliveEntry(old(alives)[k], healths[k])
        invariant forall k :: i <= k < |alives| ==> alives[k] == old(alives)[k]
      {
        if alives[i].Some? {
          if healths[i].None? || healths[i].value == 0 {
            alives := alives[i := Some(false)];
          }
        }
        i := i + 1;
      }
    }

    /** Clears every present health change and draws a new one for every absent one. */
    method HealthChangesSystem(draws: nat -> HealthDraw)
      requires Valid()
      modifies this`healthChanges
      ensures healthChanges == HealthChangesToggled(old(healthChanges), draws)
      ensures Valid() && Snapshot() == Run(old(Snapshot()), HealthChanges(draws))
    {
      var i := 0;
      while i < |healthChanges|
        invariant 0 <= i <= |healthChanges| == |old(healthChanges)|
        invariant forall k :: 0 <= k < i ==>
          healthChanges[k] == if old(healthChanges)[k].Some? then None else Some(HealthDeltaOf(draws(k)))
        invariant forall k :: i <= k < |healthChanges| ==> healthChanges[k] == old(healthChanges)[k]
      {
        match healthChanges[i] {
          case Some(_) =>
            healthChanges := healthChanges[i := None];
          case None =>
            var d := draws(i);
            if d.keepSign {
              healthChanges := healthChanges[i := Some(TruncRem(d.magnitude, 2))];
            } else {
              healthChanges := healthChanges[i := Some(-TruncRem(d.magnitude, 2))];
            }
        }
        i := i + 1;
      }
    }

    /** Publishes the number of living entities. */
    method AliveEntitiesDisplaySystem()
      requires Valid()
      modifies this`livingEntities
      ensures livingEntities == CountAlive(alives)
      ensures Valid() && Snapshot() == Run(old(Snapshot()), AliveEntitiesDisplay)
    {
      livingEntities := CountAlive(alives);
    }

    /** One tick: every system once, in submission order (the canvas printer left out). */
    method Tick(accelDraws: nat -> AccelDraw, healthDraws: nat -> HealthDraw)
      requires Valid()
      modifies this
      ensures Valid()
      ensures Snapshot() == RunAll(old(Snapshot()), TickRuns(accelDraws, healthDraws))
    {
      ghost var w0 := Snapshot();
      PositionUpdateSystem();
      ghost var w1 := Snapshot();
      VelocityUpdateSystem();
      ghost var w2 := Snapshot();
      ComponentRenderSystem();
      ghost var w3 := Snapshot();
      HealthUpdateSystem();
      ghost var w4 := Snapshot();
      AccelerationUpdateSystem(accelDraws);
      ghost var w5 := Snapshot();
      assert w5 == BeforeAliveCheck(w0, accelDraws);
      AliveSystem();
      ghost var w6 := Snapshot();
      HealthChangesSystem(healthDraws);
      ghost var w7 := Snapshot();
      AliveEntitiesDisplaySystem();
      assert Snapshot() == FromAliveCheck(w5, healthDraws);
      TickOfIsRunAll(w0, accelDraws, healthDraws);
    }
  }
}
