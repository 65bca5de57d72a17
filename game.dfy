/** The game as the page runs it: one object holding the ship, the lists of lasers,
    rockets and asteroids, the score and the flags, whose methods are the game loop,
    the key handlers, the volley, starting and ending a game and the speed slider.
    Every method is proved to change the game exactly as the matching function of
    the `Session` module says. */
module Game {
  import opened Playfield
  import opened Ships
  import opened Projectiles
  import opened Asteroids
  import opened Collision
  import opened Filtering
  import opened Session

  /** No object appears twice in `s`. */
  ghost predicate Distinct<T>(s: seq<T>)
  {
    forall j, k :: 0 <= j < k < |s| ==> s[j] != s[k]
  }

  lemma DistinctSnoc<T>(s: seq<T>, x: T)
    requires Distinct(s) && x !in s
    ensures Distinct(s + [x])
  {
    var u := s + [x];
    forall p, q | 0 <= p < q < |u|
      ensures u[p] != u[q]
    {
      assert u[p] == s[p];
      if q == |s| {
        assert s[p] in s;
      }
    }
  }

  ghost function LaserViews(ls: seq<Laser>): (v: seq<LaserState>)
    reads ls
    ensures |v| == |ls|
  {
    seq(|ls|, k reads ls requires 0 <= k < |ls| => ls[k].State())
  }

  ghost function RocketViews(rs: seq<Rocket>): (v: seq<RocketState>)
    reads rs
    ensures |v| == |rs|
  {
    seq(|rs|, k reads rs requires 0 <= k < |rs| => rs[k].State())
  }

  ghost function AsteroidViews(rocks: seq<Asteroid>): (v: seq<AsteroidState>)
    reads rocks
    ensures |v| == |rocks|
  {
    seq(|rocks|, k reads rocks requires 0 <= k < |rocks| => rocks[k].State())
  }

  lemma NoViews()
    ensures LaserViews([]) == [] && RocketViews([]) == [] && AsteroidViews([]) == []
  {
  }

  lemma LaserViewsSnoc(s: seq<Laser>, x: Laser)
    ensures LaserViews(s + [x]) == LaserViews(s) + [x.State()]
  {
  }

  lemma RocketViewsSnoc(s: seq<Rocket>, x: Rocket)
    ensures RocketViews(s + [x]) == RocketViews(s) + [x.State()]
  {
  }

  lemma AsteroidViewsSnoc(s: seq<Asteroid>, x: Asteroid)
    ensures AsteroidViews(s + [x]) == AsteroidViews(s) + [x.State()]
  {
  }

  /** Whether some rocket object was fired by hand is `AnyManual` of their states. */
  lemma AnyManualViews(rs: seq<Rocket>)
    ensures AnyManual(RocketViews(rs)) <==> exists k | 0 <= k < |rs| :: rs[k].manualFired
  {
    var v := RocketViews(rs);
    if exists k | 0 <= k < |rs| :: rs[k].manualFired {
      var k :| 0 <= k < |rs| && rs[k].manualFired;
      assert v[k].manualFired;
    }
  }

  /** The lasers still active, in their order. */
  function ActiveLasers(s: seq<Laser>): (r: seq<Laser>)
    reads s
    ensures forall x :: x in r ==> x in s
  {
    if s == [] then []
    else ActiveLasers(s[..|s| - 1]) + (if s[|s| - 1].active then [s[|s| - 1]] else [])
  }

  lemma {:induction false} ActiveLasersViews(s: seq<Laser>)
    ensures LaserViews(ActiveLasers(s)) == Filter(LaserViews(s), LaserActive)
    ensures Distinct(s) ==> Distinct(ActiveLasers(s))
  {
    if s != [] {
      var init, last := s[..|s| - 1], s[|s| - 1];
      ActiveLasersViews(init);
      assert LaserViews(s)[..|s| - 1] == LaserViews(init);
      LaserViewsSnoc(ActiveLasers(init), last);
      if Distinct(s) && last.active {
        assert last !in init;
        DistinctSnoc(ActiveLasers(init), last);
      }
    }
  }

  /** The rockets still active, in their order. */
  function ActiveRockets(s: seq<Rocket>): (r: seq<Rocket>)
    reads s
    ensures forall x :: x in r ==> x in s
  {
    if s == [] then []
    else ActiveRockets(s[..|s| - 1]) + (if s[|s| - 1].active then [s[|s| - 1]] else [])
  }

  lemma {:induction false} ActiveRocketsViews(s: seq<Rocket>)
    ensures RocketViews(ActiveRockets(s)) == Filter(RocketViews(s), RocketActive)
    ensures Distinct(s) ==> Distinct(ActiveRockets(s))
  {
    if s != [] {
      var init, last := s[..|s| - 1], s[|s| - 1];
      ActiveRocketsViews(init);
      assert RocketViews(s)[..|s| - 1] == RocketViews(init);
      RocketViewsSnoc(ActiveRockets(init), last);
      if Distinct(s) && last.active {
        assert last !in init;
        DistinctSnoc(ActiveRockets(init), last);
      }
    }
  }

  /** The asteroids still active, in their order. */
  function ActiveAsteroids(s: seq<Asteroid>): (r: seq<Asteroid>)
    reads s
    ensures forall x :: x in r ==> x in s
  {
    if s == [] then []
    else ActiveAsteroids(s[..|s| - 1]) + (if s[|s| - 1].active then [s[|s| - 1]] else [])
  }

  lemma {:induction false} ActiveAsteroidsViews(s: seq<Asteroid>)
    ensures AsteroidViews(ActiveAsteroids(s)) == Filter(AsteroidViews(s), AsteroidActive)
    ensures Distinct(s) ==> Distinct(ActiveAsteroids(s))
  {
    if s != [] {
      var init, last := s[..|s| - 1], s[|s| - 1];
      ActiveAsteroidsViews(init);
      assert AsteroidViews(s)[..|s| - 1] == AsteroidViews(init);
      AsteroidViewsSnoc(ActiveAsteroids(init), last);
      if Distinct(s) && last.active {
        assert last !in init;
        DistinctSnoc(ActiveAsteroids(init), last);
      }
    }
  }

  class Game {
    var ship: Ship
    var lasers: seq<Laser>
    var rockets: seq<Rocket>
    var asteroids: seq<Asteroid>
    var score: int
    var playing: bool
    var rocketOnScreen: bool
    var lastMultiRocketTime: real
    var asteroidSpeedMultiplier: real
    var keys: set<string>

    /** Each list holds distinct objects, so updating one leaves the others alone. */
    ghost predicate Valid()
      reads this`lasers, this`rockets, this`asteroids
    {
      Distinct(lasers) && Distinct(rockets) && Distinct(asteroids)
    }

    ghost function Model(): GameState
      reads this, ship, lasers, rockets, asteroids
    {
      GameState(ship.State(), LaserViews(lasers), RocketViews(rockets), AsteroidViews(asteroids),
                score, playing, rocketOnScreen, lastMultiRocketTime, asteroidSpeedMultiplier, keys)
    }

    ghost function ArenaNow(): Arena
      reads this`asteroids, this`lasers, this`rockets, this`score, this`playing, lasers, rockets, asteroids
    {
      Arena(AsteroidViews(asteroids), LaserViews(lasers), RocketViews(rockets), score, playing)
    }

    /** The page has loaded; `slider` is the slider's value, if it has one. */
    constructor (slider: Option<real>)
      ensures Valid() && Model() == Initial(slider)
    {
      ship := new Ship();
      lasers, rockets, asteroids := [], [], [];
      score := 0;
      playing := false;
      rocketOnScreen := false;
      lastMultiRocketTime := 0.0;
      asteroidSpeedMultiplier := (if slider.Some? then slider.value else DEFAULT_SLIDER) / ASTEROID_BASE_SPEED;
      keys := {};
    }

    // -------------------------------------------------------------------------
    // Starting and ending a game.

    /** A new game at time `now`; `field` supplies the draws of the six new
        asteroids and `draws` those of the first tick. */
    method StartGame(now: real, t: Trig, field: nat -> AsteroidDraws, draws: nat -> AsteroidDraws)
      requires Valid()
      modifies this
      ensures Valid() && Model() == AfterStart(old(Model()), now, t, field, draws)
    {
      Reset(now, field);
      GameLoop(t, draws);
    }

    /** Everything a new game starts from: a new ship, no projectiles, six new
        asteroids, score 0, playing, and a multi-rocket volley allowed at once. */
    method Reset(now: real, field: nat -> AsteroidDraws)
      modifies this
      ensures Valid() && Model() == AfterReset(old(Model()), now, field)
      ensures fresh(ship) && lasers == [] && rockets == [] && fresh(set a | a in asteroids)
    {
      NewWorld(field);
      score := 0;
      playing := true;
      lastMultiRocketTime := now - MULTI_ROCKET_COOLDOWN;
      rocketOnScreen := false;
    }

    /** A new ship, no projectiles and six new asteroids. */
    method NewWorld(field: nat -> AsteroidDraws)
      modifies this`ship, this`lasers, this`rockets, this`asteroids
      ensures fresh(ship) && ship.State() == NewShip()
      ensures lasers == [] && rockets == [] && LaserViews(lasers) == [] && RocketViews(rockets) == []
      ensures fresh(set a | a in asteroids) && Distinct(asteroids)
      ensures AsteroidViews(asteroids) == Spawns(field, asteroidSpeedMultiplier, ASTEROID_NUM)
    {
      ship := new Ship();
      lasers := [];
      rockets := [];
      SpawnField(field);
      NoViews();
    }

    /** The six asteroids of a new game. */
    method SpawnField(field: nat -> AsteroidDraws)
      modifies this`asteroids
      ensures Distinct(asteroids) && forall a :: a in asteroids ==> fresh(a)
      ensures AsteroidViews(asteroids) == Spawns(field, asteroidSpeedMultiplier, ASTEROID_NUM)
    {
      asteroids := [];
      var i := 0;
      while i < ASTEROID_NUM
        invariant 0 <= i <= ASTEROID_NUM
        invariant Distinct(asteroids) && forall a :: a in asteroids ==> fresh(a)
        invariant AsteroidViews(asteroids) == Spawns(field, asteroidSpeedMultiplier, i)
      {
        var a := new Asteroid(field(i), asteroidSpeedMultiplier);
        AsteroidViewsSnoc(asteroids, a);
        asteroids := asteroids + [a];
        i := i + 1;
      }
    }

    method EndGame()
      modifies this`playing
      ensures !playing
    {
      playing := false;
    }

    // -------------------------------------------------------------------------
    // The game loop.

    /** One tick of the game loop; `draws` supplies the draws of the asteroids it
        creates. */
    method GameLoop(t: Trig, draws: nat -> AsteroidDraws)
      requires Valid()
      modifies this, ship, lasers, rockets, asteroids
      ensures Valid() && Model() == AfterTick(old(Model()), t, draws)
    {
      if !playing {
        return;
      }
      AdvanceAll(t);
      ResolveCollisions();
      PruneAll();
      RespawnAsteroids(draws);
    }

    /** Phase 1: everything moves. */
    method AdvanceAll(t: Trig)
      requires Valid()
      modifies ship, lasers, rockets, asteroids
      ensures Model() == Advanced(old(Model()), t)
    {
      ghost var g := Model();
      ship.Update(keys, t);
      assert Model() == g.(ship := ShipStep(g.ship, keys, t));
      UpdateLasers(t);
      UpdateRockets(t);
      UpdateAsteroids(t);
    }

    method UpdateLasers(t: Trig)
      requires Valid()
      modifies lasers
      ensures var g := old(Model()); Model() == g.(lasers := StepLasers(g.lasers, t))
    {
      ghost var before := LaserViews(lasers);
      var i := 0;
      while i < |lasers|
        invariant 0 <= i <= |lasers|
        invariant forall k :: 0 <= k < i ==> lasers[k].State() == LaserStep(before[k], t)
        invariant forall k :: i <= k < |lasers| ==> lasers[k].State() == before[k]
      {
        assert forall k :: 0 <= k < |lasers| && k != i ==> lasers[k] != lasers[i];
        lasers[i].Update(t);
        i := i + 1;
      }
    }

    method UpdateRockets(t: Trig)
      requires Valid()
      modifies rockets
      ensures var g := old(Model()); Model() == g.(rockets := StepRockets(g.rockets, t))
    {
      ghost var before := RocketViews(rockets);
      var i := 0;
      while i < |rockets|
        invariant 0 <= i <= |rockets|
        invariant forall k :: 0 <= k < i ==> rockets[k].State() == RocketStep(before[k], t)
        invariant forall k :: i <= k < |rockets| ==> rockets[k].State() == before[k]
      {
        assert forall k :: 0 <= k < |rockets| && k != i ==> rockets[k] != rockets[i];
        rockets[i].Update(t);
        i := i + 1;
      }
    }

    method UpdateAsteroids(t: Trig)
      requires Valid()
      modifies asteroids
      ensures var g := old(Model()); Model() == g.(asteroids := StepAsteroids(g.asteroids, t))
    {
      ghost var before := AsteroidViews(asteroids);
      var i := 0;
      while i < |asteroids|
        invariant 0 <= i <= |asteroids|
        invariant forall k :: 0 <= k < i ==> asteroids[k].State() == AsteroidStep(before[k], t)
        invariant forall k :: i <= k < |asteroids| ==> asteroids[k].State() == before[k]
      {
        assert forall k :: 0 <= k < |asteroids| && k != i ==> asteroids[k] != asteroids[i];
        asteroids[i].Update(t);
        i := i + 1;
      }
    }

    /** Phase 2: the collision pass, asteroid by asteroid in list order. */
    method ResolveCollisions()
      requires Valid()
      modifies this`score, this`playing, lasers, rockets, asteroids
      ensures Model() == Resolved(old(Model()))
    {
      ResolveAll();
    }

    method ResolveAll()
      requires Valid()
      modifies this`score, this`playing, lasers, rockets, asteroids
      ensures ArenaNow() == CollisionPass(old(ArenaNow()), ship.State())
    {
      ghost var w0 := ArenaNow();
      var i := 0;
      while i < |asteroids|
        invariant 0 <= i <= |asteroids|
        invariant ArenaNow() == ResolveUpTo(w0, i, ship.State())
      {
        ResolveAsteroid(i);
        i := i + 1;
      }
    }

    /** The pass's treatment of asteroid `i`: unless it is switched off or already
        exploding, it is tested against every laser, every rocket and the ship. */
    method ResolveAsteroid(i: nat)
      requires Valid() && i < |asteroids|
      modifies this`score, this`playing, lasers, rockets, asteroids[i]
      ensures ArenaNow() == Resolve(old(ArenaNow()), i, ship.State())
    {
      var target := asteroids[i].State();
      if target.active && !target.exploding {
        ghost var w, s := ArenaNow(), ship.State();
        ShootLasersAt(i);
        ShootRocketsAt(i);
        ShipAgainst(target);
        ResolveInSteps(w, i, s);
      }
    }

    /** An asteroid overlapping the ship ends the game. */
    method ShipAgainst(target: AsteroidState)
      modifies this`playing
      ensures ArenaNow() == old(ArenaNow()).(playing := old(playing) && !RamsShip(target, ship.State()))
    {
      if RamsShip(target, ship.State()) {
        EndGame();
      }
    }

    /** The arena after one asteroid's pass against every laser. */
    method ShootLasersAt(i: nat)
      requires Valid() && i < |asteroids|
      modifies this`score, asteroids[i], lasers
      ensures ArenaNow() == LaserPass(old(ArenaNow()), i)
    {
      ghost var rocks := AsteroidViews(asteroids);
      LasersAgainst(asteroids[i]);
      assert AsteroidViews(asteroids) == rocks[i := asteroids[i].State()];
    }

    /** One asteroid against every laser: each active laser it overlaps is switched
        off, scores 10 and hits the asteroid. A hit leaves the asteroid's position
        and size alone, so the test reads them from `target`, taken before the
        loop. */
    method LasersAgainst(a: Asteroid)
      requires Distinct(lasers)
      modifies this`score, a, lasers
      ensures var a0, ls0 := old(a.State()), old(LaserViews(lasers));
        LaserViews(lasers) == ShootLasers(a0, ls0) &&
        score == old(score) + LASER_POINTS * LaserHitCount(a0, ls0) &&
        a.State() == (if LaserHitCount(a0, ls0) > 0 then AsteroidHit(a0) else a0)
    {
      var target := a.State();
      ghost var ls0 := LaserViews(lasers);
      var j := 0;
      while j < |lasers|
        invariant LasersShotUpTo(target, ls0, j)
        invariant score == old(score) + LASER_POINTS * LaserHitCount(target, ls0[..j])
        invariant a.State() == (if LaserHitCount(target, ls0[..j]) > 0 then AsteroidHit(target) else target)
      {
        LaserAgainst(a, target, ls0, j);
        LaserHitCountStep(target, ls0, j);
        j := j + 1;
      }
      assert ls0[..|lasers|] == ls0;
      LasersShotAll(target, ls0);
    }

    /** Once every laser has been tested, the list's states are those of `ShootLasers`. */
    lemma LasersShotAll(target: AsteroidState, ls0: seq<LaserState>)
      requires LasersShotUpTo(target, ls0, |ls0|)
      ensures LaserViews(lasers) == ShootLasers(target, ls0)
    {
      var r := ShootLasers(target, ls0);
      forall k | 0 <= k < |ls0| ensures LaserViews(lasers)[k] == r[k] {
        assert lasers[k].State() == (if LaserHits(target, ls0[k]) then ls0[k].(active := false) else ls0[k]);
      }
    }

    /** The first `j` lasers have been tested against the asteroid whose state
        before the pass was `target`, and the others are as in `ls0`. */
    ghost predicate LasersShotUpTo(target: AsteroidState, ls0: seq<LaserState>, j: nat)
      reads this`lasers, lasers
    {
      |lasers| == |ls0| && j <= |ls0| &&
      (forall k :: 0 <= k < j ==>
         lasers[k].State() == (if LaserHits(target, ls0[k]) then ls0[k].(active := false) else ls0[k])) &&
      (forall k :: j <= k < |ls0| ==> lasers[k].State() == ls0[k])
    }

    /** Laser `j` against the asteroid `a`, whose state before the pass is `target`. */
    method LaserAgainst(a: Asteroid, target: AsteroidState, ghost ls0: seq<LaserState>, j: nat)
      requires Distinct(lasers) && j < |lasers| && LasersShotUpTo(target, ls0, j)
      requires a.State() == target || a.State() == AsteroidHit(target)
      modifies this`score, a, lasers[j]
      ensures LasersShotUpTo(target, ls0, j + 1)
      ensures var hit := LaserHits(target, ls0[j]);
        score == old(score) + (if hit then LASER_POINTS else 0) &&
        a.State() == (if hit then AsteroidHit(target) else old(a.State()))
    {
      var l := lasers[j];
      assert forall k :: 0 <= k < |lasers| && k != j ==> lasers[k] != l;
      if LaserHits(target, l.State()) {
        a.Hit();
        l.active := false;
        score := score + LASER_POINTS;
      }
    }

    /** The arena after one asteroid's pass against every rocket. */
    method ShootRocketsAt(i: nat)
      requires Valid() && i < |asteroids|
      modifies this`score, asteroids[i], rockets
      ensures ArenaNow() == RocketPass(old(ArenaNow()), i)
    {
      ghost var rocks := AsteroidViews(asteroids);
      RocketsAgainst(asteroids[i]);
      assert AsteroidViews(asteroids) == rocks[i := asteroids[i].State()];
    }

    /** One asteroid against every rocket: each active rocket it overlaps within
        the wider radius is switched off, scores 30 and hits the asteroid. */
    method RocketsAgainst(a: Asteroid)
      requires Distinct(rockets)
      modifies this`score, a, rockets
      ensures var a0, rs0 := old(a.State()), old(RocketViews(rockets));
        RocketViews(rockets) == ShootRockets(a0, rs0) &&
        score == old(score) + ROCKET_POINTS * RocketHitCount(a0, rs0) &&
        a.State() == (if RocketHitCount(a0, rs0) > 0 then AsteroidHit(a0) else a0)
    {
      var target := a.State();
      ghost var rs0 := RocketViews(rockets);
      var j := 0;
      while j < |rockets|
        invariant RocketsShotUpTo(target, rs0, j)
        invariant score == old(score) + ROCKET_POINTS * RocketHitCount(target, rs0[..j])
        invariant a.State() == (if RocketHitCount(target, rs0[..j]) > 0 then AsteroidHit(target) else target)
      {
        RocketAgainst(a, target, rs0, j);
        RocketHitCountStep(target, rs0, j);
        j := j + 1;
      }
      assert rs0[..|rockets|] == rs0;
      RocketsShotAll(target, rs0);
    }

    /** Once every rocket has been tested, the list's states are those of `ShootRockets`. */
    lemma RocketsShotAll(target: AsteroidState, rs0: seq<RocketState>)
      requires RocketsShotUpTo(target, rs0, |rs0|)
      ensures RocketViews(rockets) == ShootRockets(target, rs0)
    {
      var r := ShootRockets(target, rs0);
      forall k | 0 <= k < |rs0| ensures RocketViews(rockets)[k] == r[k] {
        assert rockets[k].State() == (if RocketHits(target, rs0[k]) then rs0[k].(active := false) else rs0[k]);
      }
    }

    /** The first `j` rockets have been tested against the asteroid whose state
        before the pass was `target`, and the others are as in `rs0`. */
    ghost predicate RocketsShotUpTo(target: AsteroidState, rs0: seq<RocketState>, j: nat)
      reads this`rockets, rockets
    {
      |rockets| == |rs0| && j <= |rs0| &&
      (forall k :: 0 <= k < j ==>
         rockets[k].State() == (if RocketHits(target, rs0[k]) then rs0[k].(active := false) else rs0[k])) &&
      (forall k :: j <= k < |rs0| ==> rockets[k].State() == rs0[k])
    }

    /** Rocket `j` against the asteroid `a`, whose state before the pass is `target`. */
    method RocketAgainst(a: Asteroid, target: AsteroidState, ghost rs0: seq<RocketState>, j: nat)
      requires Distinct(rockets) && j < |rockets| && RocketsShotUpTo(target, rs0, j)
      requires a.State() == target || a.State() == AsteroidHit(target)
      modifies this`score, a, rockets[j]
      ensures RocketsShotUpTo(target, rs0, j + 1)
      ensures var hit := RocketHits(target, rs0[j]);
        score == old(score) + (if hit then ROCKET_POINTS else 0) &&
        a.State() == (if hit then AsteroidHit(target) else old(a.State()))
    {
      var r := rockets[j];
      assert forall k :: 0 <= k < |rockets| && k != j ==> rockets[k] != r;
      if RocketHits(target, r.State()) {
        a.Hit();
        r.active := false;
        score := score + ROCKET_POINTS;
      }
    }

    /** Phase 3: inactive entities are dropped and the manual-rocket flag is
        recomputed. */
    method PruneAll()
      requires Valid()
      modifies this`lasers, this`rockets, this`asteroids, this`rocketOnScreen
      ensures Valid() && Model() == Pruned(old(Model()))
    {
      PruneLasers();
      PruneRockets();
      PruneAsteroids();
      ghost var p := Model();
      UpdateRocketOnScreen();
      assert Model() == p.(rocketOnScreen := AnyManual(p.rockets));
    }

    method PruneLasers()
      requires Valid()
      modifies this`lasers
      ensures Valid() && Model() == old(Model()).(lasers := Filter(old(Model()).lasers, LaserActive))
    {
      ActiveLasersViews(lasers);
      lasers := ActiveLasers(lasers);
    }

    method PruneRockets()
      requires Valid()
      modifies this`rockets
      ensures Valid() && Model() == old(Model()).(rockets := Filter(old(Model()).rockets, RocketActive))
    {
      ActiveRocketsViews(rockets);
      rockets := ActiveRockets(rockets);
    }

    method PruneAsteroids()
      requires Valid()
      modifies this`asteroids
      ensures Valid() && Model() == old(Model()).(asteroids := Filter(old(Model()).asteroids, AsteroidActive))
    {
      ActiveAsteroidsViews(asteroids);
      asteroids := ActiveAsteroids(asteroids);
    }

    /** The flag is set exactly when some rocket fired by hand is still listed. */
    method UpdateRocketOnScreen()
      modifies this`rocketOnScreen
      ensures Model() == old(Model()).(rocketOnScreen := AnyManual(old(Model()).rockets))
    {
      rocketOnScreen := exists k | 0 <= k < |rockets| :: rockets[k].manualFired;
      AnyManualViews(rockets);
    }

    /** Phase 4: new asteroids are pushed until there are ASTEROID_NUM. */
    method RespawnAsteroids(draws: nat -> AsteroidDraws)
      requires Valid()
      modifies this`asteroids
      ensures Valid() && Model() == Replenished(old(Model()), draws)
    {
      ghost var before := AsteroidViews(asteroids);
      ghost var n0 := |asteroids|;
      var k: nat := 0;
      while |asteroids| < ASTEROID_NUM
        invariant |asteroids| == n0 + k && (k > 0 ==> |asteroids| <= ASTEROID_NUM)
        invariant Distinct(asteroids)
        invariant forall a :: a in asteroids ==> a in old(asteroids) || fresh(a)
        invariant AsteroidViews(asteroids) == before + Spawns(draws, asteroidSpeedMultiplier, k)
        decreases ASTEROID_NUM - |asteroids|
      {
        var a := new Asteroid(draws(k), asteroidSpeedMultiplier);
        AsteroidViewsSnoc(asteroids, a);
        asteroids := asteroids + [a];
        k := k + 1;
      }
      if k == 0 {
        assert before + Spawns(draws, asteroidSpeedMultiplier, 0) == before;
      }
    }

    // -------------------------------------------------------------------------
    // Keys and weapons.

    method KeyDown(key: string, now: real, t: Trig)
      requires Valid()
      modifies this
      ensures Valid() && Model() == AfterKeyDown(old(Model()), key, now, t)
    {
      if !playing {
        return;
      }
      ghost var g := old(Model());
      keys := keys + {key};
      ghost var g1 := g.(keys := g.keys + {key});
      assert Model() == g1;
      if key == " " {
        FireLaser(t);
      }
      ghost var g2 := if key == " " then g1.(lasers := g1.lasers + [NewLaser(Nose(g1.ship, g1.ship.angle, t), g1.ship.angle)]) else g1;
      assert Model() == g2;
      if key == "m" || key == "M" {
        FireManualRocket(t);
      }
      assert Model() == if (key == "m" || key == "M") && !g2.rocketOnScreen
                        then g2.(rockets := g2.rockets + [ManualRocket(g2.ship, t)], rocketOnScreen := true)
                        else g2;
      if key == "n" || key == "N" {
        FireMultiRockets(now, t);
      }
    }

    /** Space: a laser leaves the ship's nose along its heading. */
    method FireLaser(t: Trig)
      requires Valid()
      modifies this`lasers
      ensures Valid()
      ensures var g := old(Model());
        Model() == g.(lasers := g.lasers + [NewLaser(Nose(g.ship, g.ship.angle, t), g.ship.angle)])
    {
      var l := new Laser(ship.x + SHIP_SIZE * t.cos(ship.angle), ship.y + SHIP_SIZE * t.sin(ship.angle), ship.angle);
      lasers := lasers + [l];
    }

    /** "m": a hand-fired rocket, unless one is still on screen. */
    method FireManualRocket(t: Trig)
      requires Valid()
      modifies this`rockets, this`rocketOnScreen
      ensures Valid()
      ensures var g := old(Model());
        Model() == if !g.rocketOnScreen then g.(rockets := g.rockets + [ManualRocket(g.ship, t)], rocketOnScreen := true) else g
    {
      if !rocketOnScreen {
        var r := new Rocket(ship.x + SHIP_SIZE * t.cos(ship.angle), ship.y + SHIP_SIZE * t.sin(ship.angle), ship.angle);
        r.manualFired := true;
        rockets := rockets + [r];
        rocketOnScreen := true;
      }
    }

    method KeyUp(key: string)
      modifies this`keys
      ensures Model() == AfterKeyUp(old(Model()), key)
    {
      keys := keys - {key};
    }

    /** The volley: unless the cooldown is running, ten rockets 36 degrees apart. */
    method FireMultiRockets(now: real, t: Trig)
      requires Valid()
      modifies this`rockets, this`lastMultiRocketTime
      ensures Valid() && Model() == AfterVolley(old(Model()), now, t)
    {
      if now - lastMultiRocketTime < MULTI_ROCKET_COOLDOWN {
        return;
      }
      lastMultiRocketTime := now;
      LaunchVolley(t);
    }

    /** Ten rockets from the ship's nose, 36 degrees apart from its heading on. */
    method LaunchVolley(t: Trig)
      requires Distinct(rockets)
      modifies this`rockets
      ensures Distinct(rockets)
      ensures RocketViews(rockets) == old(RocketViews(rockets)) + Volley(ship.State(), t)
      ensures |rockets| == old(|rockets|) + VOLLEY_SIZE && rockets[..old(|rockets|)] == old(rockets)
      ensures forall k :: old(|rockets|) <= k < |rockets| ==> fresh(rockets[k])
    {
      ghost var before := RocketViews(rockets);
      ghost var r0 := rockets;
      ghost var volley := Volley(ship.State(), t);
      var baseAngle := ship.angle;
      var i := 0;
      while i < VOLLEY_SIZE
        invariant 0 <= i <= VOLLEY_SIZE
        invariant Distinct(rockets)
        invariant RocketViews(rockets) == before + volley[..i]
        invariant |rockets| == |r0| + i && rockets[..|r0|] == r0
        invariant forall k :: |r0| <= k < |rockets| ==> fresh(rockets[k])
      {
        var angle := baseAngle + VOLLEY_SPREAD * i as real;
        var rocket := new Rocket(ship.x + SHIP_SIZE * t.cos(angle), ship.y + SHIP_SIZE * t.sin(angle), angle);
        rocket.manualFired := false;
        assert volley[..i + 1] == volley[..i] + [rocket.State()];
        RocketViewsSnoc(rockets, rocket);
        rockets := rockets + [rocket];
        i := i + 1;
      }
      assert volley[..VOLLEY_SIZE] == volley;
    }

    /** The speed slider moved to `value`. */
    method SetSpeedFromSlider(value: real)
      requires Valid()
      modifies this`asteroidSpeedMultiplier, asteroids
      ensures Model() == AfterSpeedChange(old(Model()), value)
    {
      asteroidSpeedMultiplier := value / ASTEROID_BASE_SPEED;
      RespeedAll();
    }

    /** Every asteroid takes the current multiplier. */
    method RespeedAll()
      requires Valid()
      modifies asteroids
      ensures AsteroidViews(asteroids) == Respeeded(old(AsteroidViews(asteroids)), asteroidSpeedMultiplier)
    {
      ghost var before := AsteroidViews(asteroids);
      var i := 0;
      while i < |asteroids|
        invariant 0 <= i <= |asteroids|
        invariant forall k :: 0 <= k < i ==> asteroids[k].State() == AsteroidRespeed(before[k], asteroidSpeedMultiplier)
        invariant forall k :: i <= k < |asteroids| ==> asteroids[k].State() == before[k]
      {
        assert forall k :: 0 <= k < |asteroids| && k != i ==> asteroids[k] != asteroids[i];
        asteroids[i].UpdateSpeed(asteroidSpeedMultiplier);
        i := i + 1;
      }
    }
  }
}
