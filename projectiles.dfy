/** Lasers and rockets: projectiles that fly straight along their heading and switch
    themselves off once they leave the closed playfield box. A rocket also keeps a
    trail of the positions it last moved from, at most 14 of them, oldest first. */
module Projectiles {
  import opened Playfield

  const TRAIL_MAX: nat := 14

  datatype LaserState = LaserState(x: real, y: real, angle: real, active: bool)

  datatype RocketState = RocketState(x: real, y: real, angle: real, active: bool,
                                     trail: seq<Point>, manualFired: bool)

  function LaserPos(l: LaserState): Point { Point(l.x, l.y) }

  function RocketPos(r: RocketState): Point { Point(r.x, r.y) }

  /** A freshly fired laser at `p` with heading `angle`. */
  function NewLaser(p: Point, angle: real): (l: LaserState)
    ensures l.active && LaserPos(l) == p && l.angle == angle
  {
    LaserState(p.x, p.y, angle, true)
  }

  /** A freshly fired rocket: active, with an empty trail and not manually fired. */
  function NewRocket(p: Point, angle: real): (r: RocketState)
    ensures r.active && r.trail == [] && !r.manualFired
    ensures RocketPos(r) == p && r.angle == angle
  {
    RocketState(p.x, p.y, angle, true, [], false)
  }

  /** One tick of a laser: 12 units along its heading, then off if outside the box. */
  function LaserStep(l: LaserState, t: Trig): LaserState
  {
    var p := Advance(LaserPos(l), LASER_SPEED, l.angle, t);
    LaserState(p.x, p.y, l.angle, l.active && InBox(p))
  }

  /** After a tick a laser that was active is inactive exactly when its new position
      is outside the box; an inactive laser never becomes active again; the heading
      does not change. */
  lemma LaserLeavesField(l: LaserState, t: Trig)
    ensures var r := LaserStep(l, t);
      LaserPos(r) == Advance(LaserPos(l), LASER_SPEED, l.angle, t) && r.angle == l.angle &&
      (l.active ==> (!r.active <==> !InBox(LaserPos(r)))) &&
      (!l.active ==> !r.active)
  {
  }

  /** The trail after remembering `p`: appended at the end, and the oldest entry
      dropped once there are more than 14. */
  function PushTrail(trail: seq<Point>, p: Point): seq<Point>
  {
    var t := trail + [p];
    if |t| > TRAIL_MAX then t[1..] else t
  }

  /** The last (at most 14) entries of `h`, in the order they have in `h`. */
  function Window(h: seq<Point>): (w: seq<Point>)
    ensures |w| <= TRAIL_MAX
  {
    if |h| <= TRAIL_MAX then h else h[|h| - TRAIL_MAX..]
  }

  /** A trail that is already a window of the history behaves as one: remembering
      a new point keeps at most 14 entries, ends with that point, and is the window
      of the longer history. */
  lemma PushTrailIsWindow(h: seq<Point>, p: Point)
    ensures PushTrail(Window(h), p) == Window(h + [p])
    ensures |PushTrail(Window(h), p)| <= TRAIL_MAX
    ensures PushTrail(Window(h), p)[|PushTrail(Window(h), p)| - 1] == p
  {
    if |h| > TRAIL_MAX {
      var w := Window(h);
      assert w + [p] == (h + [p])[|h| - TRAIL_MAX..];
      assert (w + [p])[1..] == (h + [p])[|h| + 1 - TRAIL_MAX..];
    }
  }

  /** One tick of a rocket: remember the position it leaves, move 6 units along its
      heading, then off if outside the box. */
  function RocketStep(r: RocketState, t: Trig): RocketState
  {
    var p := Advance(RocketPos(r), ROCKET_SPEED, r.angle, t);
    RocketState(p.x, p.y, r.angle, r.active && InBox(p), PushTrail(r.trail, RocketPos(r)), r.manualFired)
  }

  /** The rocket analogue of LaserLeavesField; also the manual flag and the heading
      are kept, and a trail of at most 14 entries stays at most 14 long. */
  lemma RocketLeavesField(r: RocketState, t: Trig)
    ensures var n := RocketStep(r, t);
      RocketPos(n) == Advance(RocketPos(r), ROCKET_SPEED, r.angle, t) &&
      n.angle == r.angle && n.manualFired == r.manualFired &&
      (r.active ==> (!n.active <==> !InBox(RocketPos(n)))) &&
      (!r.active ==> !n.active) &&
      (|r.trail| <= TRAIL_MAX ==> |n.trail| <= TRAIL_MAX)
  {
  }

  /** `n` ticks of a rocket. */
  function Fly(r: RocketState, t: Trig, n: nat): RocketState
  {
    if n == 0 then r else RocketStep(Fly(r, t, n - 1), t)
  }

  /** The positions a rocket moves away from during `n` ticks, oldest first. */
  function Wake(r: RocketState, t: Trig, n: nat): (w: seq<Point>)
    ensures |w| == n
  {
    if n == 0 then [] else Wake(r, t, n - 1) + [RocketPos(Fly(r, t, n - 1))]
  }

  /** The trail is a bounded FIFO: after any number of ticks it holds the last (at
      most 14) positions the rocket moved away from, oldest first. */
  lemma {:induction false} TrailIsRecentWake(r: RocketState, t: Trig, n: nat)
    requires |r.trail| <= TRAIL_MAX
    ensures Fly(r, t, n).trail == Window(r.trail + Wake(r, t, n))
  {
    if n > 0 {
      var h, p := r.trail + Wake(r, t, n - 1), RocketPos(Fly(r, t, n - 1));
      TrailIsRecentWake(r, t, n - 1);
      FlyTrailStep(r, t, n);
      PushTrailIsWindow(h, p);
      HistoryStep(r, t, n);
    }
  }

  /** The trail after tick `n` is the trail after tick `n - 1` with the position
      the rocket then left pushed onto it. */
  lemma FlyTrailStep(r: RocketState, t: Trig, n: nat)
    requires n > 0
    ensures Fly(r, t, n).trail == PushTrail(Fly(r, t, n - 1).trail, RocketPos(Fly(r, t, n - 1)))
  {
  }

  /** The history after tick `n` extends the history after tick `n - 1` by one position. */
  lemma HistoryStep(r: RocketState, t: Trig, n: nat)
    requires n > 0
    ensures r.trail + Wake(r, t, n) == (r.trail + Wake(r, t, n - 1)) + [RocketPos(Fly(r, t, n - 1))]
  {
    assert Wake(r, t, n) == Wake(r, t, n - 1) + [RocketPos(Fly(r, t, n - 1))];
  }

  class Laser {
    var x: real
    var y: real
    var angle: real
    var active: bool

    function State(): LaserState
      reads this
    {
      LaserState(x, y, angle, active)
    }

    constructor (x0: real, y0: real, angle0: real)
      ensures State() == NewLaser(Point(x0, y0), angle0)
    {
      x, y, angle := x0, y0, angle0;
      active := true;
    }

    method Update(t: Trig)
      modifies this
      ensures State() == LaserStep(old(State()), t)
    {
      x := x + LASER_SPEED * t.cos(angle);
      y := y + LASER_SPEED * t.sin(angle);
      if x < 0.0 || x > WIDTH || y < 0.0 || y > HEIGHT {
        active := false;
      }
    }
  }

  class Rocket {
    var x: real
    var y: real
    var angle: real
    var active: bool
    var trail: seq<Point>
    var manualFired: bool

    function State(): RocketState
      reads this
    {
      RocketState(x, y, angle, active, trail, manualFired)
    }

    constructor (x0: real, y0: real, angle0: real)
      ensures State() == NewRocket(Point(x0, y0), angle0)
    {
      x, y, angle := x0, y0, angle0;
      active := true;
      trail := [];
      manualFired := false;
    }

    method Update(t: Trig)
      modifies this
      ensures State() == RocketStep(old(State()), t)
    {
      trail := trail + [Point(x, y)];
      if |trail| > TRAIL_MAX {
        trail := trail[1..];
      }
      x := x + ROCKET_SPEED * t.cos(angle);
      y := y + ROCKET_SPEED * t.sin(angle);
      if x < 0.0 || x > WIDTH || y < 0.0 || y > HEIGHT {
        active := false;
      }
    }
  }
}
