/** Asteroids: they drift along their heading at `speed` (wrapping like the ship)
    and spin, until a hit switches them to exploding; an exploding asteroid stands
    still, counts its explosion ticks and switches itself off after the 19th. */
module Asteroids {
  import opened Playfield

  const ASTEROID_BASE_SPEED: real := 2.0
  const EXPLODE_TICKS: nat := 18

  datatype AsteroidState = AsteroidState(
    x: real, y: real, angle: real,
    baseSpeed: real, speed: real,
    active: bool, exploding: bool, explodeTime: nat,
    size: real, rotation: real, rotationSpeed: real)

  /** The results of the seven random draws a new asteroid makes, in the order it
      makes them. */
  datatype AsteroidDraws = AsteroidDraws(
    x: real, y: real, angle: real, speed: real, size: real, rotation: real, spin: real)

  /** Every draw lies in [0, 1), as random draws do. */
  predicate UnitDraws(d: AsteroidDraws)
  {
    0.0 <= d.x < 1.0 && 0.0 <= d.y < 1.0 && 0.0 <= d.angle < 1.0 && 0.0 <= d.speed < 1.0 &&
    0.0 <= d.size < 1.0 && 0.0 <= d.rotation < 1.0 && 0.0 <= d.spin < 1.0
  }

  function AsteroidPos(a: AsteroidState): Point { Point(a.x, a.y) }

  /** A new asteroid made from draws `d` while the speed multiplier is `multiplier`. */
  function Spawn(d: AsteroidDraws, multiplier: real): AsteroidState
  {
    var base := ASTEROID_BASE_SPEED + d.speed * 2.0;
    AsteroidState(d.x * WIDTH, d.y * HEIGHT, d.angle * 360.0,
                  base, base * multiplier,
                  true, false, 0,
                  36.0 + d.size * 44.0, d.rotation * 360.0, (d.spin - 0.5) * 1.0)
  }

  /** A new asteroid drifts, is active, lies inside the playfield (never on its far
      edges), has a size in [36, 80) and a base speed in [2, 4) scaled by the
      multiplier. */
  lemma SpawnInRange(d: AsteroidDraws, multiplier: real)
    requires UnitDraws(d)
    ensures var a := Spawn(d, multiplier);
      a.active && !a.exploding && a.explodeTime == 0 &&
      0.0 <= a.x < WIDTH && 0.0 <= a.y < HEIGHT &&
      36.0 <= a.size < 80.0 &&
      2.0 <= a.baseSpeed < 4.0 && a.speed == a.baseSpeed * multiplier
  {
  }

  /** One tick: a drifting asteroid moves and spins and is wrapped; an exploding one
      only counts, and is switched off once the count exceeds 18. */
  function AsteroidStep(a: AsteroidState, t: Trig): AsteroidState
  {
    if !a.exploding then
      var p := Wrap(Advance(AsteroidPos(a), a.speed, a.angle, t));
      a.(x := p.x, y := p.y, rotation := a.rotation + a.rotationSpeed)
    else
      var n := a.explodeTime + 1;
      a.(explodeTime := n, active := a.active && !(n > EXPLODE_TICKS))
  }

  /** Hitting starts the explosion from a count of 0. */
  function AsteroidHit(a: AsteroidState): (h: AsteroidState)
    ensures h.exploding && h.explodeTime == 0
    ensures h.(exploding := a.exploding, explodeTime := a.explodeTime) == a
  {
    a.(exploding := true, explodeTime := 0)
  }

  /** The effective speed is recomputed from the multiplier; the base speed stays. */
  function AsteroidRespeed(a: AsteroidState, multiplier: real): (b: AsteroidState)
    ensures b.speed == a.baseSpeed * multiplier
    ensures b.(speed := a.speed) == a
  {
    a.(speed := a.baseSpeed * multiplier)
  }

  /** `n` ticks of an asteroid. */
  function Age(a: AsteroidState, t: Trig, n: nat): AsteroidState
  {
    if n == 0 then a else AsteroidStep(Age(a, t, n - 1), t)
  }

  /** While exploding an asteroid keeps its position, rotation, size and state,
      its count grows by exactly one per tick, and it is active exactly while the
      count has not passed 18. */
  lemma {:induction false} ExplosionCountdown(a: AsteroidState, t: Trig, n: nat)
    requires a.exploding
    ensures var b := Age(a, t, n);
      b.exploding && b.x == a.x && b.y == a.y && b.rotation == a.rotation && b.size == a.size &&
      b.explodeTime == a.explodeTime + n &&
      (b.active <==> a.active && (n == 0 || a.explodeTime + n <= EXPLODE_TICKS))
  {
    if n > 0 {
      ExplosionCountdown(a, t, n - 1);
    }
  }

  /** After a hit an active asteroid survives exactly 18 further ticks: it is still
      active after the 18th and switched off by the 19th. */
  lemma ExplosionLasts(a: AsteroidState, t: Trig)
    requires a.active
    ensures Age(AsteroidHit(a), t, EXPLODE_TICKS).active
    ensures !Age(AsteroidHit(a), t, EXPLODE_TICKS + 1).active
  {
    ExplosionCountdown(AsteroidHit(a), t, EXPLODE_TICKS);
    ExplosionCountdown(AsteroidHit(a), t, EXPLODE_TICKS + 1);
  }

  /** A drifting asteroid inside the box that moves less than the box height per tick
      stays inside the box. */
  lemma DriftStaysOnField(a: AsteroidState, t: Trig)
    requires !a.exploding && InBox(AsteroidPos(a))
    requires UnitTrig(t) && 0.0 <= a.speed < HEIGHT
    ensures InBox(AsteroidPos(AsteroidStep(a, t)))
  {
    var c, s := t.cos(a.angle), t.sin(a.angle);
    assert -1.0 <= c <= 1.0 && -1.0 <= s <= 1.0;
    ShortStepWraps(AsteroidPos(a), Advance(AsteroidPos(a), a.speed, a.angle, t), a.speed, c, s);
  }

  /** A point in the box displaced by `k` times a factor in [-1, 1] on each axis, with
      `k` below the field height, is in the box after the wrap. */
  lemma ShortStepWraps(p: Point, q: Point, k: real, c: real, s: real)
    requires InBox(p) && 0.0 <= k < HEIGHT
    requires -1.0 <= c <= 1.0 && -1.0 <= s <= 1.0
    requires q.x - p.x == k * c && q.y - p.y == k * s
    ensures InBox(Wrap(q))
  {
    ScaledWithin(k, c, q.x - p.x);
    ScaledWithin(k, s, q.y - p.y);
    WrapPointKeepsInside(p, q);
  }

  /** `d`, which is `k` times a factor in [-1, 1], lies between -k and k. */
  lemma ScaledWithin(k: real, c: real, d: real)
    requires 0.0 <= k && -1.0 <= c <= 1.0 && d == k * c
    ensures -k <= d <= k
  {
    ScaleBounded(k, c);
  }

  class Asteroid {
    var x: real
    var y: real
    var angle: real
    var baseSpeed: real
    var speed: real
    var active: bool
    var exploding: bool
    var explodeTime: nat
    var size: real
    var rotation: real
    var rotationSpeed: real

    function State(): AsteroidState
      reads this
    {
      AsteroidState(x, y, angle, baseSpeed, speed, active, exploding, explodeTime,
                    size, rotation, rotationSpeed)
    }

    constructor (d: AsteroidDraws, multiplier: real)
      ensures State() == Spawn(d, multiplier)
    {
      x := d.x * WIDTH;
      y := d.y * HEIGHT;
      angle := d.angle * 360.0;
      var base := ASTEROID_BASE_SPEED + d.speed * 2.0;
      baseSpeed := base;
      speed := base * multiplier;
      active := true;
      exploding := false;
      explodeTime := 0;
      size := 36.0 + d.size * 44.0;
      rotation := d.rotation * 360.0;
      rotationSpeed := (d.spin - 0.5) * 1.0;
    }

    method UpdateSpeed(multiplier: real)
      modifies this
      ensures State() == AsteroidRespeed(old(State()), multiplier)
    {
      speed := baseSpeed * multiplier;
    }

    method Update(t: Trig)
      modifies this
      ensures State() == AsteroidStep(old(State()), t)
    {
      if !exploding {
        Drift(t);
      } else {
        explodeTime := explodeTime + 1;
        if explodeTime > EXPLODE_TICKS {
          active := false;
        }
      }
    }

    /** Move `speed` along the heading, spin, and wrap each axis with two tests in a
        row. */
    method Drift(t: Trig)
      modifies this`x, this`y, this`rotation
      ensures Point(x, y) == Wrap(Advance(Point(old(x), old(y)), speed, angle, t))
      ensures rotation == old(rotation) + rotationSpeed
    {
      x := x + speed * t.cos(angle);
      y := y + speed * t.sin(angle);
      rotation := rotation + rotationSpeed;
      WrapAround();
    }

    /** Each axis: add the size when below 0, then subtract it when above the size. */
    method WrapAround()
      modifies this`x, this`y
      ensures Point(x, y) == Wrap(Point(old(x), old(y)))
    {
      if x < 0.0 { x := x + WIDTH; }
      if x > WIDTH { x := x - WIDTH; }
      if y < 0.0 { y := y + HEIGHT; }
      if y > HEIGHT { y := y - HEIGHT; }
    }

    method Hit()
      modifies this
      ensures State() == AsteroidHit(old(State()))
    {
      exploding := true;
      explodeTime := 0;
    }
  }
}
