/**
 * The per-tick systems as functions of the component columns they read.
 * Each column is a sequence of optional values indexed by entity; the
 * columns need not have equal lengths, and a pass over two of them walks
 * only their common prefix, as pairing them with `zip` does.
 */
module Systems {
  import opened Components

  // ---------------------------------------------------------------------
  // Pairwise passes: position, velocity and health updates
  // ---------------------------------------------------------------------

  /** One entry of a pairwise pass: rewritten with `f` when both entries are present, kept otherwise. */
  function ZipEntry<A, B>(x: Option<A>, y: Option<B>, f: (A, B) -> A): Option<A>
  {
    if x.Some? && y.Some? then Some(f(x.value, y.value)) else x
  }

  /**
   * A pass over the pairs of `xs` and `ys`, entry by entry along their
   * common prefix; entries of `xs` past the end of `ys` are kept.
   */
  function ZipUpdate<A, B>(xs: seq<Option<A>>, ys: seq<Option<B>>, f: (A, B) -> A): (r: seq<Option<A>>)
    ensures |r| == |xs|
    ensures forall i :: 0 <= i < |xs| ==> r[i] == if i < |ys| then ZipEntry(xs[i], ys[i], f) else xs[i]
    decreases |xs|
  {
    if xs == [] || ys == [] then xs
    else [ZipEntry(xs[0], ys[0], f)] + ZipUpdate(xs[1..], ys[1..], f)
  }

  /** A moved position: the componentwise sum, each coordinate clamped to its bounds. */
  function PositionStep(p: Vec2, v: Vec2): (q: Vec2)
    ensures InBounds(q)
    ensures forall z :: InBounds(z) ==> Dist(q.x, p.x + v.x) <= Dist(z.x, p.x + v.x) && Dist(q.y, p.y + v.y) <= Dist(z.y, p.y + v.y)
    ensures InBounds(Vec2(p.x + v.x, p.y + v.y)) ==> q == Vec2(p.x + v.x, p.y + v.y)
  {
    Vec2(Clamp(p.x + v.x, MIN_X, MAX_X), Clamp(p.y + v.y, MIN_Y, MAX_Y))
  }

  /** An accelerated velocity: the componentwise sum, unclamped. */
  function VelocityStep(v: Vec2, a: Vec2): (w: Vec2)
    ensures w.x - v.x == a.x && w.y - v.y == a.y
  {
    Vec2(v.x + a.x, v.y + a.y)
  }

  /** An updated health: saturating signed addition, then clamped to [0, MAX_HEALTH]. */
  function HealthStep(h: Usize, d: Isize): (r: Usize)
    ensures 0 <= r <= MAX_HEALTH
    ensures r == Clamp(h + d, 0, MAX_HEALTH)
  {
    Clamp(SaturatingAddSigned(h, d), 0, MAX_HEALTH)
  }

  /** True when entry i is rewritten by a pass pairing xs with ys. */
  predicate Paired<A, B>(xs: seq<Option<A>>, ys: seq<Option<B>>, i: int)
  {
    0 <= i < |xs| && i < |ys| && xs[i].Some? && ys[i].Some?
  }

  /**
   * The position update: where position and velocity are both present the
   * position moves by the velocity and lands inside the bounds; every other
   * entry is left as it was.
   */
  function PositionUpdated(ps: seq<Option<Vec2>>, vs: seq<Option<Vec2>>): (r: seq<Option<Vec2>>)
    ensures |r| == |ps|
    ensures forall i :: Paired(ps, vs, i) ==>
      r[i] == Some(Vec2(Clamp(ps[i].value.x + vs[i].value.x, MIN_X, MAX_X),
                        Clamp(ps[i].value.y + vs[i].value.y, MIN_Y, MAX_Y)))
    ensures forall i :: Paired(ps, vs, i) ==> InBounds(r[i].value)
    ensures forall i :: 0 <= i < |ps| && !Paired(ps, vs, i) ==> r[i] == ps[i]
  {
    ZipUpdate(ps, vs, PositionStep)
  }

  /**
   * The velocity update: where velocity and acceleration are both present
   * the velocity grows by the acceleration; every other entry is left as it was.
   */
  function VelocityUpdated(vs: seq<Option<Vec2>>, acs: seq<Option<Vec2>>): (r: seq<Option<Vec2>>)
    ensures |r| == |vs|
    ensures forall i :: Paired(vs, acs, i) ==>
      r[i] == Some(Vec2(vs[i].value.x + acs[i].value.x, vs[i].value.y + acs[i].value.y))
    ensures forall i :: 0 <= i < |vs| && !Paired(vs, acs, i) ==> r[i] == vs[i]
  {
    ZipUpdate(vs, acs, VelocityStep)
  }

  /**
   * The health update: where health and health change are both present the
   * health becomes their sum clamped to [0, MAX_HEALTH]; every other entry
   * is left as it was.
   */
  function HealthUpdated(hs: seq<Option<Usize>>, ds: seq<Option<Isize>>): (r: seq<Option<Usize>>)
    ensures |r| == |hs|
    ensures forall i :: Paired(hs, ds, i) ==> r[i] == Some(Clamp(hs[i].value + ds[i].value, 0, MAX_HEALTH))
    ensures forall i :: Paired(hs, ds, i) ==> r[i].value <= MAX_HEALTH
    ensures forall i :: 0 <= i < |hs| && !Paired(hs, ds, i) ==> r[i] == hs[i]
  {
    ZipUpdate(hs, ds, HealthStep)
  }

  /**
   * Four entities, three with positions (0, 0), (1, 1), (-1, -1) and one
   * without; only the first has a velocity, (1, 0). Only the first moves.
   */
  lemma PositionUpdateExample()
    ensures PositionUpdated([Some(Vec2(0, 0)), Some(Vec2(1, 1)), Some(Vec2(-1, -1)), None],
                            [Some(Vec2(1, 0)), None, None, None])
         == [Some(Vec2(1, 0)), Some(Vec2(1, 1)), Some(Vec2(-1, -1)), None]
  {
    var r := PositionUpdated([Some(Vec2(0, 0)), Some(Vec2(1, 1)), Some(Vec2(-1, -1)), None],
                             [Some(Vec2(1, 0)), None, None, None]);
    assert r[0] == Some(Vec2(1, 0));
  }

  // ---------------------------------------------------------------------
  // The alive check
  // ---------------------------------------------------------------------

  /** True when a health slot is absent or holds 0. */
  predicate Depleted(h: Option<Usize>)
  {
    h.None? || h.value == 0
  }

  /** One entry of the alive check. */
  function AliveEntry(a: Option<bool>, h: Option<Usize>): (r: Option<bool>)
    ensures r.None? <==> a.None?
    ensures r == Some(true) <==> a == Some(true) && !Depleted(h)
    ensures a.Some? && Depleted(h) ==> r == Some(false)
  {
    if a.Some? && Depleted(h) then Some(false) else a
  }

  /**
   * The alive check, along the common prefix of the alive and health
   * columns: a present alive flag whose health is absent or 0 becomes
   * false. Nothing becomes true and absent flags stay absent.
   */
  function AliveUpdated(al: seq<Option<bool>>, hs: seq<Option<Usize>>): (r: seq<Option<bool>>)
    ensures |r| == |al|
    ensures forall i :: 0 <= i < |al| ==>
      r[i] == if i < |hs| && al[i].Some? && Depleted(hs[i]) then Some(false) else al[i]
    ensures forall i :: 0 <= i < |al| ==> (r[i] == Some(true) ==> al[i] == Some(true))
    ensures forall i :: 0 <= i < |al| ==> (r[i].None? <==> al[i].None?)
    decreases |al|
  {
    if al == [] || hs == [] then al
    else [AliveEntry(al[0], hs[0])] + AliveUpdated(al[1..], hs[1..])
  }

  /** A living entity of health 0 is marked dead by one alive check. */
  lemma AliveCheckExample()
    ensures AliveUpdated([Some(true)], [Some(0)]) == [Some(false)]
  {
    assert AliveUpdated([Some(true)], [Some(0)])[0] == Some(false);
  }

  // ---------------------------------------------------------------------
  // Toggles: acceleration update and health changes
  // ---------------------------------------------------------------------

  /**
   * A toggle pass over a whole column: a present entry becomes absent and an
   * absent entry i becomes present with `make(i)`.
   */
  function Toggled<A>(xs: seq<Option<A>>, make: nat -> A): (r: seq<Option<A>>)
    ensures |r| == |xs|
    ensures forall i :: 0 <= i < |xs| ==> r[i] == if xs[i].Some? then None else Some(make(i))
    decreases |xs|
  {
    if xs == [] then []
    else
      var last := |xs| - 1;
      Toggled(xs[..last], make) + [if xs[last].Some? then None else Some(make(last))]
  }

  /**
   * The acceleration update: each entry flips presence, and every new
   * acceleration has both components in {-1, 0, 1}. `draws(i)` holds the
   * random numbers drawn while visiting entity i.
   */
  function AccelerationToggled(acs: seq<Option<Vec2>>, draws: nat -> AccelDraw): (r: seq<Option<Vec2>>)
    ensures |r| == |acs|
    ensures forall i :: 0 <= i < |acs| ==> (r[i].Some? <==> acs[i].None?)
    ensures forall i :: 0 <= i < |acs| && r[i].Some? ==> r[i].value == AccelerationOf(draws(i)) && UnitStep(r[i].value)
  {
    Toggled(acs, i => AccelerationOf(draws(i)))
  }

  /**
   * The health-change update: each entry flips presence, and every new
   * health change lies in {-1, 0, 1}.
   */
  function HealthChangesToggled(ds: seq<Option<Isize>>, draws: nat -> HealthDraw): (r: seq<Option<Isize>>)
    ensures |r| == |ds|
    ensures forall i :: 0 <= i < |ds| ==> (r[i].Some? <==> ds[i].None?)
    ensures forall i :: 0 <= i < |ds| && r[i].Some? ==> r[i].value == HealthDeltaOf(draws(i)) && -1 <= r[i].value <= 1
  {
    Toggled(ds, i => HealthDeltaOf(draws(i)))
  }

  /**
   * Toggling twice restores the presence pattern: what was present is
   * present again, with the value of the second pass's draw, and what was
   * absent is absent again.
   */
  lemma ToggleTwice<A>(xs: seq<Option<A>>, first: nat -> A, second: nat -> A)
    ensures |Toggled(Toggled(xs, first), second)| == |xs|
    ensures forall i :: 0 <= i < |xs| ==>
      Toggled(Toggled(xs, first), second)[i] == if xs[i].Some? then Some(second(i)) else None
  {
  }

  // ---------------------------------------------------------------------
  // Rendering
  // ---------------------------------------------------------------------

  /** Number of entities the render pass visits: the common prefix of the three columns it zips. */
  function RenderLen(ps: seq<Option<Vec2>>, al: seq<Option<bool>>, hs: seq<Option<Usize>>): (n: nat)
    ensures n <= |ps| && n <= |al| && n <= |hs|
    ensures n == |ps| || n == |al| || n == |hs|
  {
    Min(Min(|ps|, |al|), |hs|)
  }

  /** True when an entity is drawn at all: position present, alive and true, health present. */
  predicate Drawn(p: Option<Vec2>, a: Option<bool>, h: Option<Usize>)
  {
    p.Some? && a == Some(true) && h.Some?
  }

  /** True when entity i writes cell c: it is drawn, its health is at least 1, and its position maps to c. */
  predicate Paints(ps: seq<Option<Vec2>>, al: seq<Option<bool>>, hs: seq<Option<Usize>>, i: int, c: Cell)
  {
    0 <= i < RenderLen(ps, al, hs) && Drawn(ps[i], al[i], hs[i]) && hs[i].value >= 1 && CellOf(ps[i].value) == c
  }

  /** True when one of the first n entities of the render pass writes cell c with status s. */
  ghost predicate PaintedAs(ps: seq<Option<Vec2>>, al: seq<Option<bool>>, hs: seq<Option<Usize>>, n: nat, c: Cell, s: Status)
    decreases n
  {
    n > 0 && ((Paints(ps, al, hs, n - 1, c) && s == Classify(hs[n - 1].value)) || PaintedAs(ps, al, hs, n - 1, c, s))
  }

  /** The status of cell c after the render pass has visited the first n entities: the last write wins. */
  function CellAfter(ps: seq<Option<Vec2>>, al: seq<Option<bool>>, hs: seq<Option<Usize>>, n: nat, c: Cell): (s: Status)
    requires n <= RenderLen(ps, al, hs)
    ensures s != Dead ==> PaintedAs(ps, al, hs, n, c, s)
  {
    if n == 0 then Dead
    else if Paints(ps, al, hs, n - 1, c) then Classify(hs[n - 1].value)
    else CellAfter(ps, al, hs, n - 1, c)
  }

  /** The whole canvas the render pass produces, row by row. */
  function RenderedCanvas(ps: seq<Option<Vec2>>, al: seq<Option<bool>>, hs: seq<Option<Usize>>): (g: seq<seq<Status>>)
    ensures |g| == HEIGHT && forall r :: 0 <= r < HEIGHT ==> |g[r]| == WIDTH
  {
    seq(HEIGHT, r => seq(WIDTH, c => CellAfter(ps, al, hs, RenderLen(ps, al, hs), Cell(r, c))))
  }

  /** Only cells inside the canvas are ever written. */
  lemma PaintsInsideCanvas(ps: seq<Option<Vec2>>, al: seq<Option<bool>>, hs: seq<Option<Usize>>, i: int, c: Cell)
    requires Paints(ps, al, hs, i, c)
    ensures 0 <= c.row < HEIGHT && 0 <= c.col < WIDTH
  {
  }

  /** A cell is Dead exactly when no entity visited so far writes it. */
  lemma {:induction false} CellDeadIffUnpainted(ps: seq<Option<Vec2>>, al: seq<Option<bool>>, hs: seq<Option<Usize>>, n: nat, c: Cell)
    requires n <= RenderLen(ps, al, hs)
    ensures CellAfter(ps, al, hs, n, c) == Dead <==> forall i :: 0 <= i < n ==> !Paints(ps, al, hs, i, c)
  {
    if n > 0 {
      CellDeadIffUnpainted(ps, al, hs, n - 1, c);
    }
  }

  /**
   * A written cell holds the classification of the last entity that writes it;
   * entities after that one, health-0 ones among them, leave it as it is.
   */
  lemma {:induction false} CellHoldsLastPainter(ps: seq<Option<Vec2>>, al: seq<Option<bool>>, hs: seq<Option<Usize>>, n: nat, c: Cell, i: nat)
    requires i < n <= RenderLen(ps, al, hs)
    requires Paints(ps, al, hs, i, c)
    requires forall j :: i < j < n ==> !Paints(ps, al, hs, j, c)
    ensures CellAfter(ps, al, hs, n, c) == Classify(hs[i].value) != Dead
  {
    if i < n - 1 {
      CellHoldsLastPainter(ps, al, hs, n - 1, c, i);
    }
  }

  /**
   * An entity whose alive flag is not present and true never influences the
   * canvas: giving it any other position, any health and any other flag
   * that is not present and true leaves every cell as it was.
   */
  lemma {:induction false} CellIgnoresUndrawn(ps: seq<Option<Vec2>>, al: seq<Option<bool>>, hs: seq<Option<Usize>>, n: nat, c: Cell,
                                               k: nat, p: Option<Vec2>, a: Option<bool>, h: Option<Usize>)
    requires n <= RenderLen(ps, al, hs)
    requires k < |ps| && k < |al| && k < |hs|
    requires al[k] != Some(true) && a != Some(true)
    ensures CellAfter(ps, al, hs, n, c) == CellAfter(ps[k := p], al[k := a], hs[k := h], n, c)
  {
    if n > 0 {
      CellIgnoresUndrawn(ps, al, hs, n - 1, c, k, p, a, h);
    }
  }

  // ---------------------------------------------------------------------
  // The alive count
  // ---------------------------------------------------------------------

  /** Number of entries that are present and true. */
  function CountAlive(al: seq<Option<bool>>): (n: nat)
    ensures n <= |al|
    decreases |al|
  {
    if al == [] then 0
    else CountAlive(al[..|al| - 1]) + (if al[|al| - 1] == Some(true) then 1 else 0)
  }

  /** The alive count is the number of entity indices whose alive flag is present and true. */
  lemma {:induction false} CountAliveIsCardinality(al: seq<Option<bool>>)
    ensures CountAlive(al) == |set i | 0 <= i < |al| && al[i] == Some(true)|
    decreases |al|
  {
    if al != [] {
      var last := |al| - 1;
      var front := al[..last];
      CountAliveIsCardinality(front);
      var before := set i | 0 <= i < |front| && front[i] == Some(true);
      var after := set i | 0 <= i < |al| && al[i] == Some(true);
      if al[last] == Some(true) {
        assert after == before + {last};
      } else {
        assert after == before;
      }
    }
  }

  /** A column whose true entries are all true in another column of the same length counts no more. */
  lemma {:induction false} CountAliveMonotone(s: seq<Option<bool>>, t: seq<Option<bool>>)
    requires |s| == |t|
    requires forall i :: 0 <= i < |t| && t[i] == Some(true) ==> s[i] == Some(true)
    ensures CountAlive(t) <= CountAlive(s)
    decreases |s|
  {
    if s != [] {
      CountAliveMonotone(s[..|s| - 1], t[..|t| - 1]);
    }
  }

  /** The alive check never raises the number of living entities. */
  lemma AliveCheckNeverRaisesCount(al: seq<Option<bool>>, hs: seq<Option<Usize>>)
    ensures CountAlive(AliveUpdated(al, hs)) <= CountAlive(al)
  {
    CountAliveMonotone(al, AliveUpdated(al, hs));
  }
}
