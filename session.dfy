/** One game session on values: what a tick of the game loop, a key press, a key
    release, the volley, starting a game and moving the speed slider do to the
    whole game state, and the invariants they keep. */
module Session {
  import opened Playfield
  import opened Ships
  import opened Projectiles
  import opened Asteroids
  import opened Collision
  import opened Filtering

  const MULTI_ROCKET_COOLDOWN: real := 10000.0
  const VOLLEY_SIZE: nat := 10
  const VOLLEY_SPREAD: real := 36.0
  const DEFAULT_SLIDER: real := 2.0

  datatype Option<T> = None | Some(value: T)

  datatype GameState = GameState(
    ship: ShipState,
    lasers: seq<LaserState>, rockets: seq<RocketState>, asteroids: seq<AsteroidState>,
    score: int, playing: bool, rocketOnScreen: bool,
    lastMultiRocketTime: real, multiplier: real, keys: set<string>)

  function LaserActive(l: LaserState): bool { l.active }
  function RocketActive(r: RocketState): bool { r.active }
  function AsteroidActive(a: AsteroidState): bool { a.active }

  /** Some rocket in `rs` was fired by hand. */
  predicate AnyManual(rs: seq<RocketState>)
  {
    exists j :: 0 <= j < |rs| && rs[j].manualFired
  }

  /** The number of rockets in `rs` fired by hand. */
  function ManualCount(rs: seq<RocketState>): nat
  {
    if rs == [] then 0
    else ManualCount(rs[..|rs| - 1]) + (if rs[|rs| - 1].manualFired then 1 else 0)
  }

  /** Where projectiles fired along heading `angle` appear: SHIP_SIZE units ahead. */
  function Nose(s: ShipState, angle: real, t: Trig): Point
  {
    Advance(ShipPos(s), SHIP_SIZE, angle, t)
  }

  /** The state once the page has loaded: no game yet, the multiplier read from the
      slider (2 when it has no value) over the base speed. */
  function Initial(slider: Option<real>): GameState
  {
    var v := if slider.Some? then slider.value else DEFAULT_SLIDER;
    GameState(NewShip(), [], [], [], 0, false, false, 0.0, v / ASTEROID_BASE_SPEED, {})
  }

  // ---------------------------------------------------------------------------
  // One tick of the game loop, in its four phases.

  function StepLasers(ls: seq<LaserState>, t: Trig): seq<LaserState>
  {
    seq(|ls|, k requires 0 <= k < |ls| => LaserStep(ls[k], t))
  }

  function StepRockets(rs: seq<RocketState>, t: Trig): seq<RocketState>
  {
    seq(|rs|, k requires 0 <= k < |rs| => RocketStep(rs[k], t))
  }

  function StepAsteroids(rocks: seq<AsteroidState>, t: Trig): seq<AsteroidState>
  {
    seq(|rocks|, k requires 0 <= k < |rocks| => AsteroidStep(rocks[k], t))
  }

  /** Phase 1: the ship, then every laser, rocket and asteroid, moves. */
  function Advanced(g: GameState, t: Trig): GameState
  {
    g.(ship := ShipStep(g.ship, g.keys, t),
       lasers := StepLasers(g.lasers, t),
       rockets := StepRockets(g.rockets, t),
       asteroids := StepAsteroids(g.asteroids, t))
  }

  function ArenaOf(g: GameState): Arena
  {
    Arena(g.asteroids, g.lasers, g.rockets, g.score, g.playing)
  }

  /** Phase 2: the collision pass against the ship's new position. */
  function Resolved(g: GameState): GameState
  {
    var r := CollisionPass(ArenaOf(g), g.ship);
    g.(asteroids := r.asteroids, lasers := r.lasers, rockets := r.rockets,
       score := r.score, playing := r.playing)
  }

  /** Phase 3: inactive entities are dropped and the manual-rocket flag recomputed. */
  function Pruned(g: GameState): GameState
  {
    var rs := Filter(g.rockets, RocketActive);
    g.(lasers := Filter(g.lasers, LaserActive), rockets := rs,
       asteroids := Filter(g.asteroids, AsteroidActive), rocketOnScreen := AnyManual(rs))
  }

  /** `n` new asteroids from the draws `draws(0)`, ..., `draws(n - 1)`. */
  function Spawns(draws: nat -> AsteroidDraws, multiplier: real, n: nat): (r: seq<AsteroidState>)
    ensures |r| == n
    ensures forall k :: 0 <= k < n ==>
      r[k].active && !r[k].exploding && r[k].explodeTime == 0 && r[k].speed == r[k].baseSpeed * multiplier
  {
    var r := seq(n, k requires 0 <= k < n => Spawn(draws(k), multiplier));
    assert forall k :: 0 <= k < n ==> r[k] == Spawn(draws(k), multiplier);
    r
  }

  /** Survivors first, then new asteroids until there are ASTEROID_NUM. */
  function Replenish(survivors: seq<AsteroidState>, draws: nat -> AsteroidDraws, multiplier: real): seq<AsteroidState>
  {
    if |survivors| < ASTEROID_NUM then survivors + Spawns(draws, multiplier, ASTEROID_NUM - |survivors|)
    else survivors
  }

  /** Phase 4: the asteroid field is filled up again. */
  function Replenished(g: GameState, draws: nat -> AsteroidDraws): GameState
  {
    g.(asteroids := Replenish(g.asteroids, draws, g.multiplier))
  }

  /** A tick of the game loop; nothing happens when no game is being played. */
  function AfterTick(g: GameState, t: Trig, draws: nat -> AsteroidDraws): GameState
  {
    if !g.playing then g
    else Replenished(Pruned(Resolved(Advanced(g, t))), draws)
  }

  // ---------------------------------------------------------------------------
  // Weapons and keys.

  /** The ten rockets of a volley, at headings angle + 36 * i. */
  function Volley(s: ShipState, t: Trig): (r: seq<RocketState>)
    ensures |r| == VOLLEY_SIZE
  {
    seq(VOLLEY_SIZE, i requires 0 <= i < VOLLEY_SIZE =>
      NewRocket(Nose(s, s.angle + VOLLEY_SPREAD * i as real, t), s.angle + VOLLEY_SPREAD * i as real))
  }

  /** The volley at time `now`: nothing while the cooldown of 10000 ms since the last
      volley runs; otherwise the time is recorded and ten rockets are fired. */
  function AfterVolley(g: GameState, now: real, t: Trig): GameState
  {
    if now - g.lastMultiRocketTime < MULTI_ROCKET_COOLDOWN then g
    else g.(lastMultiRocketTime := now, rockets := g.rockets + Volley(g.ship, t))
  }

  function ManualRocket(s: ShipState, t: Trig): (r: RocketState)
    ensures r.manualFired && r.active && r.trail == []
    ensures RocketPos(r) == Nose(s, s.angle, t) && r.angle == s.angle
  {
    NewRocket(Nose(s, s.angle, t), s.angle).(manualFired := true)
  }

  /** A key press: ignored outside a game; otherwise the key is recorded as held,
      space fires a laser, "m"/"M" fires a rocket unless a hand-fired one is still on
      screen, and "n"/"N" asks for a volley. */
  function AfterKeyDown(g: GameState, key: string, now: real, t: Trig): GameState
  {
    if !g.playing then g
    else
      var g1 := g.(keys := g.keys + {key});
      var g2 := if key == " " then g1.(lasers := g1.lasers + [NewLaser(Nose(g1.ship, g1.ship.angle, t), g1.ship.angle)]) else g1;
      var g3 := if (key == "m" || key == "M") && !g2.rocketOnScreen
                then g2.(rockets := g2.rockets + [ManualRocket(g2.ship, t)], rocketOnScreen := true)
                else g2;
      if key == "n" || key == "N" then AfterVolley(g3, now, t) else g3
  }

  /** A key release is recorded whether or not a game is being played. */
  function AfterKeyUp(g: GameState, key: string): GameState
  {
    g.(keys := g.keys - {key})
  }

  /** A new game at time `now`: a new ship in the middle, no projectiles, six new
      asteroids, score 0, the volley made available at once. Keys and the speed
      multiplier are kept. */
  function AfterReset(g: GameState, now: real, field: nat -> AsteroidDraws): GameState
  {
    g.(ship := NewShip(), lasers := [], rockets := [], asteroids := Spawns(field, g.multiplier, ASTEROID_NUM),
       score := 0, playing := true, lastMultiRocketTime := now - MULTI_ROCKET_COOLDOWN,
       rocketOnScreen := false)
  }

  /** Starting (or restarting) a game ends with the first tick of the loop. */
  function AfterStart(g: GameState, now: real, t: Trig, field: nat -> AsteroidDraws,
                      draws: nat -> AsteroidDraws): GameState
  {
    AfterTick(AfterReset(g, now, field), t, draws)
  }

  /** The speed slider moved to `value`: the multiplier becomes value / 2 and every
      asteroid's speed is recomputed from it. */
  function AfterSpeedChange(g: GameState, value: real): GameState
  {
    var m := value / ASTEROID_BASE_SPEED;
    g.(multiplier := m, asteroids := Respeeded(g.asteroids, m))
  }

  function Respeeded(rocks: seq<AsteroidState>, m: real): (r: seq<AsteroidState>)
    ensures |r| == |rocks|
    ensures forall k :: 0 <= k < |rocks| ==>
      r[k].speed == rocks[k].baseSpeed * m && r[k].(speed := rocks[k].speed) == rocks[k]
  {
    seq(|rocks|, k requires 0 <= k < |rocks| => AsteroidRespeed(rocks[k], m))
  }

  // ---------------------------------------------------------------------------
  // The invariant kept between events.

  /** Between events every listed entity is active, every rocket trail holds at most
      14 entries, at most one rocket was fired by hand and the on-screen flag says
      whether one exists, the score is non-negative and there are at most
      ASTEROID_NUM asteroids. */
  ghost predicate Consistent(g: GameState)
  {
    (forall k :: 0 <= k < |g.lasers| ==> g.lasers[k].active) &&
    (forall k :: 0 <= k < |g.rockets| ==> g.rockets[k].active && |g.rockets[k].trail| <= TRAIL_MAX) &&
    (forall k :: 0 <= k < |g.asteroids| ==> g.asteroids[k].active) &&
    ManualCount(g.rockets) <= 1 &&
    (g.rocketOnScreen <==> AnyManual(g.rockets)) &&
    g.score >= 0 &&
    |g.asteroids| <= ASTEROID_NUM
  }

  lemma {:induction false} ManualCountPositive(rs: seq<RocketState>)
    ensures ManualCount(rs) > 0 <==> AnyManual(rs)
  {
    if rs != [] {
      var init := rs[..|rs| - 1];
      ManualCountPositive(init);
      if AnyManual(init) {
        var j :| 0 <= j < |init| && init[j].manualFired;
        assert rs[j] == init[j];
      }
      if AnyManual(rs) {
        var j :| 0 <= j < |rs| && rs[j].manualFired;
        if j < |rs| - 1 { assert init[j] == rs[j]; }
      }
    }
  }

  lemma {:induction false} ManualCountConcat(rs: seq<RocketState>, us: seq<RocketState>)
    ensures ManualCount(rs + us) == ManualCount(rs) + ManualCount(us)
    decreases |us|
  {
    if us == [] {
      assert rs + us == rs;
    } else {
      ManualCountConcat(rs, us[..|us| - 1]);
      assert (rs + us)[..|rs + us| - 1] == rs + us[..|us| - 1];
    }
  }

  /** Only the manual flags matter to the count. */
  lemma {:induction false} ManualCountSameFlags(rs: seq<RocketState>, us: seq<RocketState>)
    requires |rs| == |us| && forall k :: 0 <= k < |rs| ==> rs[k].manualFired == us[k].manualFired
    ensures ManualCount(rs) == ManualCount(us)
  {
    if rs != [] {
      ManualCountSameFlags(rs[..|rs| - 1], us[..|us| - 1]);
    }
  }

  /** Dropping rockets never adds hand-fired ones. */
  lemma {:induction false} ManualCountFilter(rs: seq<RocketState>)
    ensures ManualCount(Filter(rs, RocketActive)) <= ManualCount(rs)
  {
    if rs != [] {
      var init := rs[..|rs| - 1];
      var last := rs[|rs| - 1];
      ManualCountFilter(init);
      ManualCountConcat(Filter(init, RocketActive), if RocketActive(last) then [last] else []);
      assert ManualCount([last]) == (if last.manualFired then 1 else 0) by {
        assert [last][..0] == [];
      }
    }
  }

  lemma ManualCountVolley(s: ShipState, t: Trig)
    ensures ManualCount(Volley(s, t)) == 0
  {
    var v := Volley(s, t);
    ManualCountPositive(v);
  }

  lemma ManualCountOne(r: RocketState)
    ensures ManualCount([r]) == if r.manualFired then 1 else 0
  {
    assert [r][..0] == [];
  }

  /** The page starts in a consistent state. */
  lemma InitialConsistent(slider: Option<real>)
    ensures Consistent(Initial(slider))
    ensures !Initial(slider).playing && Initial(slider).score == 0
  {
  }

  /** After the pass every projectile is one of the stepped ones with at most its
      active flag switched off. */
  lemma PassKeepsRockets(g: GameState)
    ensures var r := Resolved(g).rockets;
      |r| == |g.rockets| && forall k :: 0 <= k < |r| ==> r[k] == g.rockets[k] || r[k] == g.rockets[k].(active := false)
  {
    PassRocketFate(ArenaOf(g), |g.asteroids|, g.ship);
  }

  lemma PassKeepsLasers(g: GameState)
    ensures var r := Resolved(g).lasers;
      |r| == |g.lasers| && forall k :: 0 <= k < |r| ==> r[k] == g.lasers[k] || r[k] == g.lasers[k].(active := false)
  {
    PassLaserFate(ArenaOf(g), |g.asteroids|, g.ship);
  }

  /** After moving and the collision pass, at most one rocket is hand-fired, every
      trail holds at most 14 entries, and the score is still non-negative. */
  lemma ResolvedBounds(g: GameState, t: Trig)
    requires Consistent(g)
    ensures var r := Resolved(Advanced(g, t));
      ManualCount(r.rockets) <= 1 && r.score >= 0 && |r.asteroids| <= ASTEROID_NUM &&
      forall k :: 0 <= k < |r.rockets| ==> |r.rockets[k].trail| <= TRAIL_MAX
  {
    var a := Advanced(g, t);
    var r := Resolved(a);
    forall k | 0 <= k < |a.rockets|
      ensures |a.rockets[k].trail| <= TRAIL_MAX && a.rockets[k].manualFired == g.rockets[k].manualFired
    {
      RocketLeavesField(g.rockets[k], t);
    }
    PassKeepsRockets(a);
    ManualCountSameFlags(g.rockets, a.rockets);
    ManualCountSameFlags(a.rockets, r.rockets);
    PassScore(ArenaOf(a), |a.asteroids|, a.ship);
  }

  /** Pruning leaves only active entities, and the flag it recomputes agrees with
      the rockets left. */
  lemma PrunedConsistent(r: GameState)
    requires ManualCount(r.rockets) <= 1 && r.score >= 0 && |r.asteroids| <= ASTEROID_NUM
    requires forall k :: 0 <= k < |r.rockets| ==> |r.rockets[k].trail| <= TRAIL_MAX
    ensures Consistent(Pruned(r))
  {
    var p := Pruned(r);
    ManualCountFilter(r.rockets);
    FilterMembers(r.rockets, RocketActive);
    FilterMembers(r.lasers, LaserActive);
    FilterMembers(r.asteroids, AsteroidActive);
    forall k | 0 <= k < |p.rockets|
      ensures p.rockets[k].active && |p.rockets[k].trail| <= TRAIL_MAX
    {
      assert p.rockets[k] in r.rockets;
    }
    forall k | 0 <= k < |p.lasers|
      ensures p.lasers[k].active
    {
      assert p.lasers[k] in p.lasers;
    }
    forall k | 0 <= k < |p.asteroids|
      ensures p.asteroids[k].active
    {
      assert p.asteroids[k] in p.asteroids;
    }
  }

  /** A tick keeps the invariant. */
  lemma TickConsistent(g: GameState, t: Trig, draws: nat -> AsteroidDraws)
    requires Consistent(g)
    ensures Consistent(AfterTick(g, t, draws))
  {
    if g.playing {
      ResolvedBounds(g, t);
      PrunedConsistent(Resolved(Advanced(g, t)));
    }
  }

  /** Appending rockets none of which is hand-fired keeps the hand-fired count and
      whether one exists. */
  lemma AppendUnmanned(rs: seq<RocketState>, us: seq<RocketState>)
    requires ManualCount(us) == 0
    ensures ManualCount(rs + us) == ManualCount(rs)
    ensures AnyManual(rs + us) <==> AnyManual(rs)
  {
    ManualCountConcat(rs, us);
    ManualCountPositive(rs);
    ManualCountPositive(rs + us);
  }

  /** The volley keeps the invariant: its rockets are active, have empty trails and
      none of them is hand-fired. */
  lemma VolleyConsistent(g: GameState, now: real, t: Trig)
    requires Consistent(g)
    ensures Consistent(AfterVolley(g, now, t))
  {
    if now - g.lastMultiRocketTime >= MULTI_ROCKET_COOLDOWN {
      var v := Volley(g.ship, t);
      ManualCountVolley(g.ship, t);
      AppendUnmanned(g.rockets, v);
      var rs := g.rockets + v;
      assert forall k :: 0 <= k < |v| ==> v[k].active && v[k].trail == [];
      assert forall k :: 0 <= k < |rs| ==> rs[k].active && |rs[k].trail| <= TRAIL_MAX by {
        forall k | 0 <= k < |rs| ensures rs[k].active && |rs[k].trail| <= TRAIL_MAX {
          if k >= |g.rockets| { assert rs[k] == v[k - |g.rockets|]; }
        }
      }
    }
  }

  /** "m" keeps the invariant: it adds a hand-fired rocket only when none exists. */
  lemma ManualFireConsistent(g: GameState, t: Trig)
    requires Consistent(g)
    ensures var m := ManualRocket(g.ship, t);
      Consistent(if !g.rocketOnScreen then g.(rockets := g.rockets + [m], rocketOnScreen := true) else g)
  {
    if !g.rocketOnScreen {
      var m := ManualRocket(g.ship, t);
      ManualCountPositive(g.rockets);
      ManualCountConcat(g.rockets, [m]);
      ManualCountOne(m);
      ManualCountPositive(g.rockets + [m]);
    }
  }

  /** A key press keeps the invariant; in particular "m" never puts a second
      hand-fired rocket on screen. */
  lemma KeyDownConsistent(g: GameState, key: string, now: real, t: Trig)
    requires Consistent(g)
    ensures Consistent(AfterKeyDown(g, key, now, t))
  {
    if g.playing {
      var g1 := g.(keys := g.keys + {key});
      if key == "m" || key == "M" {
        ManualFireConsistent(g1, t);
      } else if key == "n" || key == "N" {
        VolleyConsistent(g1, now, t);
      }
    }
  }

  /** A key release keeps the invariant, whether or not a game is on. */
  lemma KeyUpConsistent(g: GameState, key: string)
    requires Consistent(g)
    ensures Consistent(AfterKeyUp(g, key))
    ensures AfterKeyUp(g, key).(keys := g.keys) == g
  {
  }

  // ---------------------------------------------------------------------------
  // What a tick promises.

  /** The refill keeps the survivors, in order, at the front and tops the field up
      to ASTEROID_NUM with asteroids made from `draws(0)`, `draws(1)`, ... at the
      current multiplier; a field that is already full is left alone. */
  lemma ReplenishFills(survivors: seq<AsteroidState>, draws: nat -> AsteroidDraws, m: real)
    ensures var r := Replenish(survivors, draws, m);
      |r| == (if |survivors| < ASTEROID_NUM then ASTEROID_NUM else |survivors|) &&
      r[..|survivors|] == survivors &&
      forall k :: |survivors| <= k < |r| ==> r[k] == Spawn(draws(k - |survivors|), m)
  {
    var r := Replenish(survivors, draws, m);
    if |survivors| < ASTEROID_NUM {
      assert r[..|survivors|] == survivors;
    }
  }

  /** During a game a tick ends with exactly ASTEROID_NUM asteroids, all of them
      active; the score never drops; and the game goes on exactly when no asteroid
      that was neither switched off nor exploding overlaps the ship after the move. */
  lemma TickEffects(g: GameState, t: Trig, draws: nat -> AsteroidDraws)
    requires Consistent(g) && g.playing
    ensures var a, h := Advanced(g, t), AfterTick(g, t, draws);
      |h.asteroids| == ASTEROID_NUM &&
      (forall k :: 0 <= k < |h.asteroids| ==> h.asteroids[k].active) &&
      h.score >= g.score &&
      (h.playing <==> !exists i :: 0 <= i < |a.asteroids| && Eligible(a.asteroids[i]) && RamsShip(a.asteroids[i], a.ship))
  {
    var a := Advanced(g, t);
    TickConsistent(g, t, draws);
    ResolvedBounds(g, t);
    PassScore(ArenaOf(a), |a.asteroids|, a.ship);
    PassShipFate(ArenaOf(a), |a.asteroids|, a.ship);
    var p := Pruned(Resolved(a));
    ReplenishFills(p.asteroids, draws, p.multiplier);
  }

  /** The score after a tick is the score before plus 10 for every laser and 30 for
      every rocket the collision pass switched off. */
  lemma TickScore(g: GameState, t: Trig, draws: nat -> AsteroidDraws)
    requires g.playing
    ensures var a, r := Advanced(g, t), Resolved(Advanced(g, t));
      AfterTick(g, t, draws).score == g.score
        + LASER_POINTS * Downed(LaserFlags(a.lasers), LaserFlags(r.lasers))
        + ROCKET_POINTS * Downed(RocketFlags(a.rockets), RocketFlags(r.rockets))
  {
    var a := Advanced(g, t);
    PassScore(ArenaOf(a), |a.asteroids|, a.ship);
  }

  // ---------------------------------------------------------------------------
  // What the weapons promise.

  /** Rocket `i` of a volley leaves the ship's nose at heading angle + 36 * i,
      active, with an empty trail and not counted as hand-fired. */
  lemma VolleyRockets(s: ShipState, t: Trig)
    ensures var v := Volley(s, t);
      forall i :: 0 <= i < |v| ==>
        v[i].angle == s.angle + VOLLEY_SPREAD * i as real &&
        RocketPos(v[i]) == Nose(s, v[i].angle, t) &&
        v[i].active && v[i].trail == [] && !v[i].manualFired
  {
  }

  /** A volley fires when at least 10000 ms have passed since the last one and then
      appends its ten rockets and records the time; a second request less than
      10000 ms later fires nothing. */
  lemma VolleyCooldown(g: GameState, now: real, later: real, t: Trig)
    requires now - g.lastMultiRocketTime >= MULTI_ROCKET_COOLDOWN
    requires now <= later < now + MULTI_ROCKET_COOLDOWN
    ensures var h := AfterVolley(g, now, t);
      h.rockets == g.rockets + Volley(g.ship, t) && |h.rockets| == |g.rockets| + VOLLEY_SIZE &&
      h.lastMultiRocketTime == now &&
      AfterVolley(h, later, t) == h
  {
  }

  /** A new game may fire a volley straight away: the first tick leaves the
      recorded time 10000 ms before the start. */
  lemma StartAllowsVolley(g: GameState, now: real, later: real, t: Trig, field: nat -> AsteroidDraws,
                          draws: nat -> AsteroidDraws)
    requires later >= now
    ensures var h := AfterStart(g, now, t, field, draws);
      AfterVolley(h, later, t).rockets == h.rockets + Volley(h.ship, t)
  {
  }

  /** "m" fires a hand-fired rocket only when none is on screen, so pressing it
      twice in a row adds one rocket at most. */
  lemma ManualFireOnce(g: GameState, key: string, now: real, later: real, t: Trig)
    requires Consistent(g) && g.playing && (key == "m" || key == "M")
    ensures var h := AfterKeyDown(g, key, now, t);
      h.rocketOnScreen &&
      h.rockets == (if g.rocketOnScreen then g.rockets else g.rockets + [ManualRocket(g.ship, t)]) &&
      AfterKeyDown(h, key, later, t).rockets == h.rockets
  {
  }

  /** Outside a game a key press changes nothing, not even the keys held; a release
      is always recorded, so the key is no longer held afterwards. */
  lemma KeysWhileIdle(g: GameState, key: string, now: real, t: Trig, draws: nat -> AsteroidDraws)
    requires !g.playing
    ensures AfterKeyDown(g, key, now, t) == g
    ensures AfterTick(g, t, draws) == g
    ensures key !in AfterKeyUp(AfterKeyDown(g, key, now, t), key).keys
  {
  }

  /** During a game a pressed key is held until it is released. */
  lemma KeyHeldUntilReleased(g: GameState, key: string, now: real, t: Trig)
    requires g.playing
    ensures key in AfterKeyDown(g, key, now, t).keys
    ensures AfterKeyUp(AfterKeyDown(g, key, now, t), key).keys == g.keys - {key}
  {
  }

  // ---------------------------------------------------------------------------
  // Starting a game and moving the slider.

  /** Starting a game from any state gives a consistent state with exactly
      ASTEROID_NUM asteroids. */
  lemma StartConsistent(g: GameState, now: real, t: Trig, field: nat -> AsteroidDraws,
                        draws: nat -> AsteroidDraws)
    ensures Consistent(AfterStart(g, now, t, field, draws))
  {
    var r := AfterReset(g, now, field);
    assert Consistent(r);
    TickConsistent(r, t, draws);
  }

  /** The slider sets every asteroid's speed to its base speed times value / 2 and
      changes nothing else about it; moving it to the same value twice is the same
      as once, and the invariant is kept. */
  lemma SpeedChange(g: GameState, value: real)
    ensures var h := AfterSpeedChange(g, value);
      |h.asteroids| == |g.asteroids| &&
      (forall k :: 0 <= k < |g.asteroids| ==>
         h.asteroids[k].speed == g.asteroids[k].baseSpeed * (value / ASTEROID_BASE_SPEED) &&
         h.asteroids[k].(speed := g.asteroids[k].speed) == g.asteroids[k]) &&
      AfterSpeedChange(h, value) == h &&
      (Consistent(g) ==> Consistent(h))
  {
    var h := AfterSpeedChange(g, value);
    var again := Respeeded(h.asteroids, h.multiplier);
    assert forall k :: 0 <= k < |again| ==> again[k] == h.asteroids[k];
    assert again == h.asteroids;
  }
}
