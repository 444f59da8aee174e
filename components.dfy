/** Constants, component value types and the machine arithmetic the systems rely on. */
module Components {

  /** Canvas width and the horizontal bounds a position is clamped to. */
  const WIDTH: nat := 200
  const MIN_X: int := -100
  const MAX_X: int := 99

  /** Canvas height and the vertical bounds a position is clamped to. */
  const HEIGHT: nat := 11
  const MIN_Y: int := -5
  const MAX_Y: int := 5

  /** Largest health value a health update can produce. */
  const MAX_HEALTH: nat := 10

  /** Largest value of a 64-bit `usize`. */
  const USIZE_MAX: int := 0xFFFF_FFFF_FFFF_FFFF

  /** 64-bit machine integers, for health (unsigned) and health changes (signed). */
  type Usize = x: int | 0 <= x <= 0xFFFF_FFFF_FFFF_FFFF
  type Isize = x: int | -0x8000_0000_0000_0000 <= x <= 0x7FFF_FFFF_FFFF_FFFF

  /** A component slot of one entity: absent, or present with a value. */
  datatype Option<T> = None | Some(value: T)

  /** A pair of coordinates: a position, a velocity or an acceleration. */
  datatype Vec2 = Vec2(x: int, y: int)

  /** Classification of a live entity's health, as drawn on the canvas. */
  datatype Status = Dead | Low | Medium | High

  /** A canvas cell, addressed by row and column. */
  datatype Cell = Cell(row: int, col: int)

  /** The two `usize` draws that make one new acceleration (horizontal, vertical). */
  datatype AccelDraw = AccelDraw(leftRight: Usize, upDown: Usize)

  /** The `bool` and `isize` draws that make one new health change. */
  datatype HealthDraw = HealthDraw(keepSign: bool, magnitude: Isize)

  function Min(a: int, b: int): (m: int)
    ensures m <= a && m <= b && (m == a || m == b)
  {
    if a <= b then a else b
  }

  function Dist(a: int, b: int): nat
  {
    if a <= b then b - a else a - b
  }

  /** Rust's `clamp(lo, hi)` (callers guarantee `lo <= hi`): the point of [lo, hi] nearest to v. */
  function Clamp(v: int, lo: int, hi: int): (r: int)
    requires lo <= hi
    ensures lo <= r <= hi
    ensures forall z :: lo <= z <= hi ==> Dist(r, v) <= Dist(z, v)
  {
    if v < lo then lo else if v > hi then hi else v
  }

  /** True when a position lies inside the clamping rectangle [MIN_X, MAX_X] x [MIN_Y, MAX_Y]. */
  predicate InBounds(p: Vec2)
  {
    MIN_X <= p.x <= MAX_X && MIN_Y <= p.y <= MAX_Y
  }

  /** True when both coordinates lie in {-1, 0, 1}. */
  predicate UnitStep(a: Vec2)
  {
    -1 <= a.x <= 1 && -1 <= a.y <= 1
  }

  /**
   * Rust's `%` on signed integers: the remainder of the division truncated
   * toward zero, which takes the sign of the dividend (Dafny's `%` is Euclidean).
   */
  function TruncRem(a: int, m: int): (r: int)
    requires m > 0
    ensures -m < r < m
    ensures a >= 0 ==> r >= 0
    ensures a <= 0 ==> r <= 0
    ensures Dist(r, 0) == Dist(a, 0) % m
  {
    if a >= 0 then a % m else -((-a) % m)
  }

  /** One axis of a new acceleration from a `usize` draw: 0 gives 1, 1 gives -1, 2 and 3 give 0 (mod 4). */
  function AxisOf(r: Usize): (a: int)
    ensures -1 <= a <= 1
    ensures a == 1 <==> r % 4 == 0
    ensures a == -1 <==> r % 4 == 1
    ensures a == 0 <==> r % 4 >= 2
  {
    match r % 4
    case 0 => 1
    case 1 => -1
    case _ => 0
  }

  /** A new acceleration from its two draws. */
  function AccelerationOf(d: AccelDraw): (a: Vec2)
    ensures UnitStep(a)
    ensures (a.x == 1 <==> d.leftRight % 4 == 0) && (a.x == -1 <==> d.leftRight % 4 == 1)
    ensures (a.y == 1 <==> d.upDown % 4 == 0) && (a.y == -1 <==> d.upDown % 4 == 1)
  {
    Vec2(AxisOf(d.leftRight), AxisOf(d.upDown))
  }

  /**
   * A new health change: the truncated remainder of an `isize` draw by 2,
   * negated when the `bool` draw is false. It is 0 exactly for even draws;
   * otherwise it is healing (1) when the sign is kept and the draw is
   * positive or the sign is flipped and the draw is negative, and damage
   * (-1) in the other two cases.
   */
  function HealthDeltaOf(d: HealthDraw): (r: Isize)
    ensures -1 <= r <= 1
    ensures r == 0 <==> d.magnitude % 2 == 0
    ensures r != 0 ==> (r > 0 <==> (d.keepSign <==> d.magnitude > 0))
  {
    if d.keepSign then TruncRem(d.magnitude, 2) else -TruncRem(d.magnitude, 2)
  }

  /**
   * Rust's `usize::saturating_add_signed`: the sum, or the end of the `usize`
   * range it overshoots.
   */
  function SaturatingAddSigned(h: Usize, d: Isize): (r: Usize)
    ensures 0 <= h + d <= USIZE_MAX ==> r == h + d
    ensures h + d < 0 ==> r == 0
    ensures h + d > USIZE_MAX ==> r == USIZE_MAX
  {
    Clamp(h + d, 0, USIZE_MAX)
  }

  /** Health classification: 0 is Dead, 1 to 3 Low, 4 to 6 Medium, 7 and above High. */
  function Classify(h: nat): (s: Status)
    ensures s == Dead <==> h == 0
    ensures s == Low <==> 1 <= h <= 3
    ensures s == Medium <==> 4 <= h <= 6
    ensures s == High <==> 7 <= h
  {
    if h >= 7 then High
    else if h >= 4 then Medium
    else if h >= 1 then Low
    else Dead
  }

  /** Rank of a status, Dead lowest. */
  function Rank(s: Status): nat
  {
    match s
    case Dead => 0
    case Low => 1
    case Medium => 2
    case High => 3
  }

  /** The canvas cell of a position: clamp it to the bounds, then shift the origin to the centre. */
  function CellOf(p: Vec2): (c: Cell)
    ensures 0 <= c.row < HEIGHT && 0 <= c.col < WIDTH
    ensures InBounds(p) ==> c == Cell(p.y - MIN_Y, p.x - MIN_X)
  {
    Cell(Clamp(p.y, MIN_Y, MAX_Y) + HEIGHT / 2, Clamp(p.x, MIN_X, MAX_X) + WIDTH / 2)
  }

  /**
   * A position outside the bounds is drawn where its nearest in-bounds
   * point is: at the edge cell closest to it.
   */
  lemma CellOfClamps(p: Vec2)
    ensures CellOf(p) == CellOf(Vec2(Clamp(p.x, MIN_X, MAX_X), Clamp(p.y, MIN_Y, MAX_Y)))
    ensures CellOf(p) == Cell(Clamp(p.y, MIN_Y, MAX_Y) - MIN_Y, Clamp(p.x, MIN_X, MAX_X) - MIN_X)
  {
  }

  /** Higher health never gives a lower status, and any positive health gives a status other than Dead. */
  lemma ClassifyMonotone(h1: nat, h2: nat)
    requires h1 <= h2
    ensures Rank(Classify(h1)) <= Rank(Classify(h2))
    ensures h1 >= 1 ==> Classify(h2) != Dead
  {
  }

  /** Two in-bounds positions share a canvas cell only if they are equal. */
  lemma CellOfInjective(p: Vec2, q: Vec2)
    requires InBounds(p) && InBounds(q)
    ensures CellOf(p) == CellOf(q) <==> p == q
  {
  }
}
