/** The player's ship: arrow keys turn it by 4 degrees per tick, push it 7 units
    forward or 4 units back along its heading, and the playfield wraps it. */
module Ships {
  import opened Playfield

  const TURN_STEP: real := 4.0
  const THRUST_FORWARD: real := 7.0
  const THRUST_BACK: real := 4.0

  datatype ShipState = ShipState(x: real, y: real, angle: real)

  function ShipPos(s: ShipState): Point
  {
    Point(s.x, s.y)
  }

  /** A new ship: the middle of the playfield, heading 0. */
  function NewShip(): (s: ShipState)
    ensures s.x == WIDTH / 2.0 && s.y == HEIGHT / 2.0 && s.angle == 0.0
    ensures InBox(ShipPos(s))
  {
    ShipState(WIDTH / 2.0, HEIGHT / 2.0, 0.0)
  }

  /** The heading after one tick of the held keys. */
  function Turn(angle: real, keys: set<string>): real
  {
    var a := if "ArrowLeft" in keys then angle - TURN_STEP else angle;
    if "ArrowRight" in keys then a + TURN_STEP else a
  }

  /** One tick of the ship with the set of keys currently held. */
  function ShipStep(s: ShipState, keys: set<string>, t: Trig): ShipState
  {
    var angle := Turn(s.angle, keys);
    var p := ShipPos(s);
    var p1 := if "ArrowUp" in keys then Advance(p, THRUST_FORWARD, angle, t) else p;
    var p2 := if "ArrowDown" in keys then Advance(p1, -THRUST_BACK, angle, t) else p1;
    var q := Wrap(p2);
    ShipState(q.x, q.y, angle)
  }

  /** Left turns the heading by -4, right by +4, both cancel out, neither keeps it. */
  lemma ShipTurns(s: ShipState, keys: set<string>, t: Trig)
    ensures ShipStep(s, keys, t).angle ==
      s.angle + (if "ArrowRight" in keys then TURN_STEP else 0.0)
              - (if "ArrowLeft" in keys then TURN_STEP else 0.0)
  {
  }

  /** Without thrust keys the ship does not move; a ship on the playfield stays put. */
  lemma ShipIdle(s: ShipState, keys: set<string>, t: Trig)
    requires "ArrowUp" !in keys && "ArrowDown" !in keys
    requires InBox(ShipPos(s))
    ensures ShipPos(ShipStep(s, keys, t)) == ShipPos(s)
  {
  }

  /** The ship never leaves the closed playfield box: a tick moves it by at most
      7 + 4 units per axis, and the wrap brings it back. */
  lemma ShipStaysOnField(s: ShipState, keys: set<string>, t: Trig)
    requires InBox(ShipPos(s))
    requires UnitTrig(t)
    ensures InBox(ShipPos(ShipStep(s, keys, t)))
  {
    var angle := Turn(s.angle, keys);
    var p := ShipPos(s);
    var p1 := if "ArrowUp" in keys then Advance(p, THRUST_FORWARD, angle, t) else p;
    var p2 := if "ArrowDown" in keys then Advance(p1, -THRUST_BACK, angle, t) else p1;
    assert -1.0 <= t.cos(angle) <= 1.0 && -1.0 <= t.sin(angle) <= 1.0;
    assert -THRUST_FORWARD <= p1.x - p.x <= THRUST_FORWARD && -THRUST_FORWARD <= p1.y - p.y <= THRUST_FORWARD;
    assert -THRUST_BACK <= p2.x - p1.x <= THRUST_BACK && -THRUST_BACK <= p2.y - p1.y <= THRUST_BACK;
    WrapPointKeepsInside(p, p2);
  }

  class Ship {
    var x: real
    var y: real
    var angle: real

    function State(): ShipState
      reads this
    {
      ShipState(x, y, angle)
    }

    constructor ()
      ensures State() == NewShip()
    {
      x := WIDTH / 2.0;
      y := HEIGHT / 2.0;
      angle := 0.0;
    }

    /** One tick: turn, thrust, then wrap each axis with two tests in a row. */
    method Update(keys: set<string>, t: Trig)
      modifies this
      ensures State() == ShipStep(old(State()), keys, t)
    {
      if "ArrowLeft" in keys { angle := angle - TURN_STEP; }
      if "ArrowRight" in keys { angle := angle + TURN_STEP; }
      Thrust(keys, t);
      WrapAround();
    }

    /** Forward thrust of 7, then backward thrust of 4, along the current heading. */
    method Thrust(keys: set<string>, t: Trig)
      modifies this`x, this`y
      ensures var p := Point(old(x), old(y));
        var p1 := if "ArrowUp" in keys then Advance(p, THRUST_FORWARD, angle, t) else p;
        Point(x, y) == if "ArrowDown" in keys then Advance(p1, -THRUST_BACK, angle, t) else p1
    {
      if "ArrowUp" in keys {
        x := x + THRUST_FORWARD * t.cos(angle);
        y := y + THRUST_FORWARD * t.sin(angle);
      }
      if "ArrowDown" in keys {
        x := x - THRUST_BACK * t.cos(angle);
        y := y - THRUST_BACK * t.sin(angle);
      }
    }

    /** Each axis: add the size when below 0, then subtract it when above the size. */
    method WrapAround()
      modifies this`x, this`y
      ensures Point(x, y) == Wrap(Point(old(x), old(y)))
    {
      if x < 0.0 { x := x + WIDTH; }
      if x > WIDTH { x := x - WIDTH; }
      if y < 0.0 { y := y + HEIGHT; }
      if y > HEIGHT { y := y - HEIGHT; }
    }
  }
}
