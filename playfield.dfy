/** The playfield of the game: its fixed dimensions and speeds, the toroidal wrap
    used by the ship and the asteroids, the closed box projectiles must stay in,
    and the circle test used for every collision. */
module Playfield {

  const WIDTH: real := 800.0
  const HEIGHT: real := 600.0
  const SHIP_SIZE: real := 36.0
  const LASER_SPEED: real := 12.0
  const ROCKET_SPEED: real := 6.0
  const ASTEROID_NUM: nat := 6

  datatype Point = Point(x: real, y: real)

  /** The trigonometry the game uses, left uninterpreted: `cos(d)` and `sin(d)` are
      the cosine and sine of an angle of `d` degrees. */
  datatype Trig = Trig(cos: real -> real, sin: real -> real)

  /** `t` only yields values in [-1, 1], as a real cosine and sine do. */
  ghost predicate UnitTrig(t: Trig)
  {
    forall d :: -1.0 <= t.cos(d) <= 1.0 && -1.0 <= t.sin(d) <= 1.0
  }

  /** The point `dist` units away from `p` along heading `angle`. */
  function Advance(p: Point, dist: real, angle: real, t: Trig): Point
  {
    Point(p.x + dist * t.cos(angle), p.y + dist * t.sin(angle))
  }

  /** One axis of the wrap: add `bound` when below 0, then subtract it when above
      `bound`. Both tests run in that order, so at most one correction happens. */
  function WrapAxis(v: real, bound: real): (r: real)
    requires bound > 0.0
    ensures r == v || r == v + bound || r == v - bound
    ensures v < 0.0 <==> r == v + bound
    ensures v > bound <==> r == v - bound
    ensures 0.0 <= v <= bound <==> r == v
  {
    var v1 := if v < 0.0 then v + bound else v;
    if v1 > bound then v1 - bound else v1
  }

  function Wrap(p: Point): Point
  {
    Point(WrapAxis(p.x, WIDTH), WrapAxis(p.y, HEIGHT))
  }

  /** The closed box [0, WIDTH] x [0, HEIGHT]. */
  predicate InBox(p: Point)
  {
    0.0 <= p.x <= WIDTH && 0.0 <= p.y <= HEIGHT
  }

  /** A coordinate inside [0, bound] that moves by less than `bound` in either
      direction is brought back into the closed interval [0, bound] by one wrap. */
  lemma WrapKeepsInside(c: real, d: real, bound: real)
    requires bound > 0.0
    requires 0.0 <= c <= bound && -bound < d < bound
    ensures 0.0 <= WrapAxis(c + d, bound) <= bound
  {
  }

  /** A point inside the box moved to `q` by less than the box size on each axis
      stays in the box after the wrap. */
  lemma WrapPointKeepsInside(p: Point, q: Point)
    requires InBox(p)
    requires -WIDTH < q.x - p.x < WIDTH && -HEIGHT < q.y - p.y < HEIGHT
    ensures InBox(Wrap(q))
  {
    WrapKeepsInside(p.x, q.x - p.x, WIDTH);
    WrapKeepsInside(p.y, q.y - p.y, HEIGHT);
  }

  /** The collision test: the squared distance between the two centres is strictly
      below the squared radius. */
  predicate Collide(p: Point, q: Point, r: real)
  {
    var dx := p.x - q.x;
    var dy := p.y - q.y;
    dx * dx + dy * dy < r * r
  }

  lemma CollideSymmetric(p: Point, q: Point, r: real)
    ensures Collide(p, q, r) <==> Collide(q, p, r)
  {
    assert (p.x - q.x) * (p.x - q.x) == (q.x - p.x) * (q.x - p.x);
    assert (p.y - q.y) * (p.y - q.y) == (q.y - p.y) * (q.y - p.y);
  }

  lemma SquareMonotone(a: real, b: real)
    requires 0.0 <= a <= b
    ensures a * a <= b * b
  {
    assert a * a <= a * b;
    assert a * b <= b * b;
  }

  /** A factor in [-1, 1] scales a non-negative length `k` to at most `k` either way. */
  lemma ScaleBounded(k: real, c: real)
    requires 0.0 <= k && -1.0 <= c <= 1.0
    ensures -k <= k * c <= k
  {
    assert k * (c + 1.0) >= 0.0;
    assert k * (1.0 - c) >= 0.0;
  }

  /** A collision at radius `r` is a collision at every larger radius: whatever a
      laser would hit, a rocket, with its wider radius, hits too. */
  lemma CollideWider(p: Point, q: Point, r: real, r2: real)
    requires 0.0 <= r <= r2
    requires Collide(p, q, r)
    ensures Collide(p, q, r2)
  {
    SquareMonotone(r, r2);
  }
}
