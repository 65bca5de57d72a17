/** The collision pass of one tick, on values. Asteroids are taken in list order;
    each one that is active and not exploding is tested against every active laser
    (radius size/2, 10 points), every active rocket (radius size/2 + 12, 30 points)
    and the ship (radius size/2 + SHIP_SIZE/3, which ends the game). Every hit
    switches the projectile off, hits the asteroid and scores: there is no "first
    hit wins" within one asteroid, but a projectile switched off by an earlier
    asteroid is no longer tested. */
module Collision {
  import opened Playfield
  import opened Ships
  import opened Projectiles
  import opened Asteroids

  const LASER_POINTS: int := 10
  const ROCKET_POINTS: int := 30
  const ROCKET_BONUS: real := 12.0

  /** Only active asteroids that are not exploding take part in collisions. */
  predicate Eligible(a: AsteroidState)
  {
    a.active && !a.exploding
  }

  predicate LaserHits(a: AsteroidState, l: LaserState)
  {
    l.active && Collide(AsteroidPos(a), LaserPos(l), a.size / 2.0)
  }

  predicate RocketHits(a: AsteroidState, r: RocketState)
  {
    r.active && Collide(AsteroidPos(a), RocketPos(r), a.size / 2.0 + ROCKET_BONUS)
  }

  /** Whatever a laser hits, a rocket at the same spot hits too: the rocket radius
      is 12 wider than the laser radius. */
  lemma RocketReachesFurther(a: AsteroidState, l: LaserState, r: RocketState)
    requires a.size >= 0.0 && r.active && RocketPos(r) == LaserPos(l)
    requires LaserHits(a, l)
    ensures RocketHits(a, r)
  {
    CollideWider(AsteroidPos(a), LaserPos(l), a.size / 2.0, a.size / 2.0 + ROCKET_BONUS);
  }

  predicate RamsShip(a: AsteroidState, s: ShipState)
  {
    Collide(AsteroidPos(a), ShipPos(s), a.size / 2.0 + SHIP_SIZE / 3.0)
  }

  /** Every laser `a` hits, switched off. */
  function ShootLasers(a: AsteroidState, ls: seq<LaserState>): (r: seq<LaserState>)
    ensures |r| == |ls|
    ensures forall j :: 0 <= j < |ls| ==>
      (r[j].active <==> ls[j].active && !LaserHits(a, ls[j])) && r[j].(active := ls[j].active) == ls[j]
  {
    seq(|ls|, j requires 0 <= j < |ls| => if LaserHits(a, ls[j]) then ls[j].(active := false) else ls[j])
  }

  /** Every rocket `a` hits, switched off. */
  function ShootRockets(a: AsteroidState, rs: seq<RocketState>): (r: seq<RocketState>)
    ensures |r| == |rs|
    ensures forall j :: 0 <= j < |rs| ==>
      (r[j].active <==> rs[j].active && !RocketHits(a, rs[j])) && r[j].(active := rs[j].active) == rs[j]
  {
    seq(|rs|, j requires 0 <= j < |rs| => if RocketHits(a, rs[j]) then rs[j].(active := false) else rs[j])
  }

  /** The number of lasers `a` hits. */
  function LaserHitCount(a: AsteroidState, ls: seq<LaserState>): nat
  {
    if ls == [] then 0
    else LaserHitCount(a, ls[..|ls| - 1]) + (if LaserHits(a, ls[|ls| - 1]) then 1 else 0)
  }

  /** The number of rockets `a` hits. */
  function RocketHitCount(a: AsteroidState, rs: seq<RocketState>): nat
  {
    if rs == [] then 0
    else RocketHitCount(a, rs[..|rs| - 1]) + (if RocketHits(a, rs[|rs| - 1]) then 1 else 0)
  }

  /** Counting one more laser of a prefix. */
  lemma LaserHitCountStep(a: AsteroidState, ls: seq<LaserState>, j: nat)
    requires j < |ls|
    ensures LaserHitCount(a, ls[..j + 1]) == LaserHitCount(a, ls[..j]) + (if LaserHits(a, ls[j]) then 1 else 0)
  {
    assert ls[..j + 1][..j] == ls[..j];
  }

  /** Counting one more rocket of a prefix. */
  lemma RocketHitCountStep(a: AsteroidState, rs: seq<RocketState>, j: nat)
    requires j < |rs|
    ensures RocketHitCount(a, rs[..j + 1]) == RocketHitCount(a, rs[..j]) + (if RocketHits(a, rs[j]) then 1 else 0)
  {
    assert rs[..j + 1][..j] == rs[..j];
  }

  /** What the collision pass works on. */
  datatype Arena = Arena(asteroids: seq<AsteroidState>, lasers: seq<LaserState>,
                         rockets: seq<RocketState>, score: int, playing: bool)

  /** The pass's treatment of asteroid `i` against the ship `s`. */
  function Resolve(w: Arena, i: nat, s: ShipState): (r: Arena)
    requires i < |w.asteroids|
    ensures |r.asteroids| == |w.asteroids| && |r.lasers| == |w.lasers| && |r.rockets| == |w.rockets|
  {
    var a := w.asteroids[i];
    if !Eligible(a) then w
    else
      var nl := LaserHitCount(a, w.lasers);
      var nr := RocketHitCount(a, w.rockets);
      Arena(w.asteroids[i := if nl + nr > 0 then AsteroidHit(a) else a],
            ShootLasers(a, w.lasers), ShootRockets(a, w.rockets),
            w.score + LASER_POINTS * nl + ROCKET_POINTS * nr,
            w.playing && !RamsShip(a, s))
  }

  /** The pass over the first `n` asteroids. */
  function ResolveUpTo(w: Arena, n: nat, s: ShipState): (r: Arena)
    requires n <= |w.asteroids|
    ensures |r.asteroids| == |w.asteroids| && |r.lasers| == |w.lasers| && |r.rockets| == |w.rockets|
  {
    if n == 0 then w else Resolve(ResolveUpTo(w, n - 1, s), n - 1, s)
  }

  /** The whole collision pass. */
  function CollisionPass(w: Arena, s: ShipState): Arena
  {
    ResolveUpTo(w, |w.asteroids|, s)
  }

  // ---------------------------------------------------------------------------
  // Order-independent descriptions of what the pass does.

  /** Some eligible asteroid among the first `n` overlaps laser `l`. */
  predicate LaserStruck(rocks: seq<AsteroidState>, n: nat, l: LaserState)
    requires n <= |rocks|
  {
    exists i :: 0 <= i < n && Eligible(rocks[i]) && LaserHits(rocks[i], l)
  }

  predicate RocketStruck(rocks: seq<AsteroidState>, n: nat, r: RocketState)
    requires n <= |rocks|
  {
    exists i :: 0 <= i < n && Eligible(rocks[i]) && RocketHits(rocks[i], r)
  }

  /** Asteroid `i` is the first eligible asteroid in list order to overlap `l`. */
  predicate ClaimsLaser(rocks: seq<AsteroidState>, i: nat, l: LaserState)
    requires i < |rocks|
  {
    Eligible(rocks[i]) && LaserHits(rocks[i], l) && !LaserStruck(rocks, i, l)
  }

  predicate ClaimsRocket(rocks: seq<AsteroidState>, i: nat, r: RocketState)
    requires i < |rocks|
  {
    Eligible(rocks[i]) && RocketHits(rocks[i], r) && !RocketStruck(rocks, i, r)
  }

  /** The fate of asteroid `i` in a pass over the asteroids `rocks` with the
      projectiles `ls` and `rs`: hit when it claims some projectile. */
  function AsteroidFate(rocks: seq<AsteroidState>, i: nat, ls: seq<LaserState>, rs: seq<RocketState>): AsteroidState
    requires i < |rocks|
  {
    if (exists j :: 0 <= j < |ls| && ClaimsLaser(rocks, i, ls[j])) ||
       (exists j :: 0 <= j < |rs| && ClaimsRocket(rocks, i, rs[j]))
    then AsteroidHit(rocks[i]) else rocks[i]
  }

  /** The number of positions where `before` is true and `after` is false. */
  function Downed(before: seq<bool>, after: seq<bool>): nat
    requires |before| == |after|
  {
    if before == [] then 0
    else Downed(before[..|before| - 1], after[..|after| - 1]) +
         (if before[|before| - 1] && !after[|after| - 1] then 1 else 0)
  }

  function LaserFlags(ls: seq<LaserState>): seq<bool>
  {
    seq(|ls|, j requires 0 <= j < |ls| => ls[j].active)
  }

  function RocketFlags(rs: seq<RocketState>): seq<bool>
  {
    seq(|rs|, j requires 0 <= j < |rs| => rs[j].active)
  }

  // ---------------------------------------------------------------------------
  // Lemmas about the pass.

  /** Treating asteroid `i` changes no other asteroid. */
  lemma ResolveTouchesOne(w: Arena, i: nat, s: ShipState)
    requires i < |w.asteroids|
    ensures forall k :: 0 <= k < |w.asteroids| && k != i ==> Resolve(w, i, s).asteroids[k] == w.asteroids[k]
  {
  }

  /** The asteroids the pass has not reached yet are as they were. */
  lemma {:induction false} PassLeavesRest(w: Arena, n: nat, s: ShipState)
    requires n <= |w.asteroids|
    ensures forall k :: n <= k < |w.asteroids| ==> ResolveUpTo(w, n, s).asteroids[k] == w.asteroids[k]
  {
    if n > 0 {
      PassLeavesRest(w, n - 1, s);
      ResolveTouchesOne(ResolveUpTo(w, n - 1, s), n - 1, s);
    }
  }

  /** Laser `j` is switched off by the pass over the first `n` asteroids exactly when
      it was active and some eligible asteroid among them overlaps it; nothing else
      about it changes. */
  lemma {:induction false} PassLaserFate(w: Arena, n: nat, s: ShipState)
    requires n <= |w.asteroids|
    ensures forall j :: 0 <= j < |w.lasers| ==>
      ResolveUpTo(w, n, s).lasers[j] ==
        if LaserStruck(w.asteroids, n, w.lasers[j]) then w.lasers[j].(active := false) else w.lasers[j]
  {
    if n > 0 {
      PassLaserFate(w, n - 1, s);
      PassLeavesRest(w, n - 1, s);
      var v := ResolveUpTo(w, n - 1, s);
      var a := w.asteroids[n - 1];
      assert v.asteroids[n - 1] == a;
      forall j | 0 <= j < |w.lasers|
        ensures ResolveUpTo(w, n, s).lasers[j] ==
          if LaserStruck(w.asteroids, n, w.lasers[j]) then w.lasers[j].(active := false) else w.lasers[j]
      {
        var l := w.lasers[j];
        if LaserStruck(w.asteroids, n - 1, l) {
          var i :| 0 <= i < n - 1 && Eligible(w.asteroids[i]) && LaserHits(w.asteroids[i], l);
          assert LaserStruck(w.asteroids, n, l) by { assert 0 <= i < n; }
        } else if Eligible(a) && LaserHits(a, l) {
          assert LaserStruck(w.asteroids, n, l) by { assert 0 <= n - 1 < n; }
        } else {
          assert !LaserStruck(w.asteroids, n, l);
        }
      }
    }
  }

  /** The rocket analogue of PassLaserFate. */
  lemma {:induction false} PassRocketFate(w: Arena, n: nat, s: ShipState)
    requires n <= |w.asteroids|
    ensures forall j :: 0 <= j < |w.rockets| ==>
      ResolveUpTo(w, n, s).rockets[j] ==
        if RocketStruck(w.asteroids, n, w.rockets[j]) then w.rockets[j].(active := false) else w.rockets[j]
  {
    if n > 0 {
      PassRocketFate(w, n - 1, s);
      PassLeavesRest(w, n - 1, s);
      var v := ResolveUpTo(w, n - 1, s);
      var a := w.asteroids[n - 1];
      assert v.asteroids[n - 1] == a;
      forall j | 0 <= j < |w.rockets|
        ensures ResolveUpTo(w, n, s).rockets[j] ==
          if RocketStruck(w.asteroids, n, w.rockets[j]) then w.rockets[j].(active := false) else w.rockets[j]
      {
        var r := w.rockets[j];
        if RocketStruck(w.asteroids, n - 1, r) {
          var i :| 0 <= i < n - 1 && Eligible(w.asteroids[i]) && RocketHits(w.asteroids[i], r);
          assert RocketStruck(w.asteroids, n, r) by { assert 0 <= i < n; }
        } else if Eligible(a) && RocketHits(a, r) {
          assert RocketStruck(w.asteroids, n, r) by { assert 0 <= n - 1 < n; }
        } else {
          assert !RocketStruck(w.asteroids, n, r);
        }
      }
    }
  }

  /** The game ends in the pass exactly when some eligible asteroid overlaps the
      ship; an asteroid hit earlier in the same pass still counts, since eligibility
      is decided before its projectiles are tested. */
  lemma {:induction false} PassShipFate(w: Arena, n: nat, s: ShipState)
    requires n <= |w.asteroids|
    ensures ResolveUpTo(w, n, s).playing <==>
      w.playing && !(exists i :: 0 <= i < n && Eligible(w.asteroids[i]) && RamsShip(w.asteroids[i], s))
  {
    if n > 0 {
      PassShipFate(w, n - 1, s);
      PassLeavesRest(w, n - 1, s);
      var a := w.asteroids[n - 1];
      assert ResolveUpTo(w, n - 1, s).asteroids[n - 1] == a;
      if Eligible(a) && RamsShip(a, s) {
        assert 0 <= n - 1 < n;
      }
    }
  }

  lemma {:induction false} LaserHitCountPositive(a: AsteroidState, ls: seq<LaserState>)
    ensures LaserHitCount(a, ls) > 0 <==> exists j :: 0 <= j < |ls| && LaserHits(a, ls[j])
  {
    if ls != [] {
      var init := ls[..|ls| - 1];
      LaserHitCountPositive(a, init);
      if exists j :: 0 <= j < |init| && LaserHits(a, init[j]) {
        var j :| 0 <= j < |init| && LaserHits(a, init[j]);
        assert ls[j] == init[j];
      }
      if exists j :: 0 <= j < |ls| && LaserHits(a, ls[j]) {
        var j :| 0 <= j < |ls| && LaserHits(a, ls[j]);
        if j < |ls| - 1 { assert init[j] == ls[j]; }
      }
    }
  }

  lemma {:induction false} RocketHitCountPositive(a: AsteroidState, rs: seq<RocketState>)
    ensures RocketHitCount(a, rs) > 0 <==> exists j :: 0 <= j < |rs| && RocketHits(a, rs[j])
  {
    if rs != [] {
      var init := rs[..|rs| - 1];
      RocketHitCountPositive(a, init);
      if exists j :: 0 <= j < |init| && RocketHits(a, init[j]) {
        var j :| 0 <= j < |init| && RocketHits(a, init[j]);
        assert rs[j] == init[j];
      }
      if exists j :: 0 <= j < |rs| && RocketHits(a, rs[j]) {
        var j :| 0 <= j < |rs| && RocketHits(a, rs[j]);
        if j < |rs| - 1 { assert init[j] == rs[j]; }
      }
    }
  }

  /** When the pass reaches eligible asteroid `n`, it overlaps some laser still active
      exactly when it claims some laser. */
  lemma LaserClaimsAt(w: Arena, n: nat, s: ShipState)
    requires n < |w.asteroids| && Eligible(w.asteroids[n])
    ensures var a, v := w.asteroids[n], ResolveUpTo(w, n, s);
      LaserHitCount(a, v.lasers) > 0 <==> exists j :: 0 <= j < |w.lasers| && ClaimsLaser(w.asteroids, n, w.lasers[j])
  {
    PassLaserFate(w, n, s);
    var a, v := w.asteroids[n], ResolveUpTo(w, n, s);
    LaserHitCountPositive(a, v.lasers);
    assert forall j :: 0 <= j < |w.lasers| ==> (LaserHits(a, v.lasers[j]) <==> ClaimsLaser(w.asteroids, n, w.lasers[j]));
  }

  lemma RocketClaimsAt(w: Arena, n: nat, s: ShipState)
    requires n < |w.asteroids| && Eligible(w.asteroids[n])
    ensures var a, v := w.asteroids[n], ResolveUpTo(w, n, s);
      RocketHitCount(a, v.rockets) > 0 <==> exists j :: 0 <= j < |w.rockets| && ClaimsRocket(w.asteroids, n, w.rockets[j])
  {
    PassRocketFate(w, n, s);
    var a, v := w.asteroids[n], ResolveUpTo(w, n, s);
    RocketHitCountPositive(a, v.rockets);
    assert forall j :: 0 <= j < |w.rockets| ==> (RocketHits(a, v.rockets[j]) <==> ClaimsRocket(w.asteroids, n, w.rockets[j]));
  }

  /** Each asteroid the pass has treated is hit exactly when it was eligible and was
      the first, in list order, to overlap some active projectile; otherwise it is
      unchanged. */
  lemma {:induction false} PassAsteroidFate(w: Arena, n: nat, s: ShipState)
    requires n <= |w.asteroids|
    ensures forall i :: 0 <= i < n ==>
      ResolveUpTo(w, n, s).asteroids[i] == AsteroidFate(w.asteroids, i, w.lasers, w.rockets)
  {
    if n > 0 {
      PassAsteroidFate(w, n - 1, s);
      PassLeavesRest(w, n - 1, s);
      var v := ResolveUpTo(w, n - 1, s);
      ResolveTouchesOne(v, n - 1, s);
      var a := w.asteroids[n - 1];
      assert v.asteroids[n - 1] == a;
      if Eligible(a) {
        LaserClaimsAt(w, n - 1, s);
        RocketClaimsAt(w, n - 1, s);
      }
    }
  }

  /** Every flag set in `after` was already set in `before`: flags were only
      cleared. */
  predicate OnlyOff(before: seq<bool>, after: seq<bool>)
  {
    |before| == |after| &&
    (before == [] ||
     (OnlyOff(before[..|before| - 1], after[..|after| - 1]) && (after[|after| - 1] ==> before[|before| - 1])))
  }

  lemma {:induction false} OnlyOffPointwise(before: seq<bool>, after: seq<bool>)
    ensures OnlyOff(before, after) <==>
      |before| == |after| && forall j :: 0 <= j < |before| ==> (after[j] ==> before[j])
  {
    if before != [] && |before| == |after| {
      var b, a := before[..|before| - 1], after[..|after| - 1];
      OnlyOffPointwise(b, a);
      assert forall j :: 0 <= j < |b| ==> b[j] == before[j] && a[j] == after[j];
    }
  }

  /** One asteroid's pass against the lasers switches exactly as many off as it
      counts hits, and switches none on. */
  lemma {:induction false} ShootLasersDowns(a: AsteroidState, ls: seq<LaserState>)
    ensures OnlyOff(LaserFlags(ls), LaserFlags(ShootLasers(a, ls)))
    ensures Downed(LaserFlags(ls), LaserFlags(ShootLasers(a, ls))) == LaserHitCount(a, ls)
  {
    if ls != [] {
      var init := ls[..|ls| - 1];
      ShootLasersDowns(a, init);
      assert LaserFlags(ls)[..|ls| - 1] == LaserFlags(init);
      assert LaserFlags(ShootLasers(a, ls))[..|ls| - 1] == LaserFlags(ShootLasers(a, init));
    }
  }

  lemma {:induction false} ShootRocketsDowns(a: AsteroidState, rs: seq<RocketState>)
    ensures OnlyOff(RocketFlags(rs), RocketFlags(ShootRockets(a, rs)))
    ensures Downed(RocketFlags(rs), RocketFlags(ShootRockets(a, rs))) == RocketHitCount(a, rs)
  {
    if rs != [] {
      var init := rs[..|rs| - 1];
      ShootRocketsDowns(a, init);
      assert RocketFlags(rs)[..|rs| - 1] == RocketFlags(init);
      assert RocketFlags(ShootRockets(a, rs))[..|rs| - 1] == RocketFlags(ShootRockets(a, init));
    }
  }

  /** Clearing flags in two rounds clears as many as the two rounds together. */
  lemma {:induction false} DownedAdds(x: seq<bool>, y: seq<bool>, z: seq<bool>)
    requires OnlyOff(x, y) && OnlyOff(y, z)
    ensures OnlyOff(x, z)
    ensures Downed(x, z) == Downed(x, y) + Downed(y, z)
  {
    if x != [] {
      DownedAdds(x[..|x| - 1], y[..|y| - 1], z[..|z| - 1]);
    }
  }

  lemma {:induction false} DownedSelf(x: seq<bool>)
    ensures OnlyOff(x, x) && Downed(x, x) == 0
  {
    if x != [] {
      DownedSelf(x[..|x| - 1]);
    }
  }

  /** `r` follows `w` by switching projectiles off, never on, and scoring 10 for each
      laser and 30 for each rocket switched off. */
  predicate ScoredFrom(w: Arena, r: Arena)
  {
    OnlyOff(LaserFlags(w.lasers), LaserFlags(r.lasers)) &&
    OnlyOff(RocketFlags(w.rockets), RocketFlags(r.rockets)) &&
    r.score == w.score
      + LASER_POINTS * Downed(LaserFlags(w.lasers), LaserFlags(r.lasers))
      + ROCKET_POINTS * Downed(RocketFlags(w.rockets), RocketFlags(r.rockets))
  }

  /** Treating one asteroid scores 10 for each laser and 30 for each rocket it
      switches off, and switches nothing on. */
  lemma ResolveScored(v: Arena, i: nat, s: ShipState)
    requires i < |v.asteroids|
    ensures ScoredFrom(v, Resolve(v, i, s))
  {
    var a := v.asteroids[i];
    if Eligible(a) {
      ShootLasersDowns(a, v.lasers);
      ShootRocketsDowns(a, v.rockets);
    } else {
      DownedSelf(LaserFlags(v.lasers));
      DownedSelf(RocketFlags(v.rockets));
    }
  }

  /** Two scoring steps in a row make one. */
  lemma ScoredTrans(w: Arena, v: Arena, r: Arena)
    requires ScoredFrom(w, v) && ScoredFrom(v, r)
    ensures ScoredFrom(w, r)
  {
    DownedAdds(LaserFlags(w.lasers), LaserFlags(v.lasers), LaserFlags(r.lasers));
    DownedAdds(RocketFlags(w.rockets), RocketFlags(v.rockets), RocketFlags(r.rockets));
  }

  /** The pass switches projectiles off and never on, and the score grows by exactly
      10 for every laser and 30 for every rocket it switches off, so it never
      decreases. */
  lemma {:induction false} PassScore(w: Arena, n: nat, s: ShipState)
    requires n <= |w.asteroids|
    ensures ScoredFrom(w, ResolveUpTo(w, n, s))
    ensures ResolveUpTo(w, n, s).score >= w.score
  {
    if n == 0 {
      DownedSelf(LaserFlags(w.lasers));
      DownedSelf(RocketFlags(w.rockets));
    } else {
      PassScore(w, n - 1, s);
      var v := ResolveUpTo(w, n - 1, s);
      ResolveScored(v, n - 1, s);
      ScoredTrans(w, v, Resolve(v, n - 1, s));
    }
  }

  /** A hit changes neither the asteroid's position nor its size, so it hits the
      same projectiles afterwards. */
  lemma {:induction false} HitKeepsTargets(a: AsteroidState, ls: seq<LaserState>, rs: seq<RocketState>)
    ensures LaserHitCount(AsteroidHit(a), ls) == LaserHitCount(a, ls)
    ensures RocketHitCount(AsteroidHit(a), rs) == RocketHitCount(a, rs)
    ensures ShootLasers(AsteroidHit(a), ls) == ShootLasers(a, ls)
    ensures ShootRockets(AsteroidHit(a), rs) == ShootRockets(a, rs)
    decreases |ls| + |rs|
  {
    if ls != [] {
      HitKeepsTargets(a, ls[..|ls| - 1], []);
    }
    if rs != [] {
      HitKeepsTargets(a, [], rs[..|rs| - 1]);
    }
  }

  /** Asteroid `i` tested against every laser, on its own. */
  function LaserPass(w: Arena, i: nat): (r: Arena)
    requires i < |w.asteroids|
    ensures |r.asteroids| == |w.asteroids| && r.rockets == w.rockets && r.playing == w.playing
    ensures forall k :: 0 <= k < |w.asteroids| && k != i ==> r.asteroids[k] == w.asteroids[k]
  {
    var a := w.asteroids[i];
    var n := LaserHitCount(a, w.lasers);
    w.(asteroids := w.asteroids[i := if n > 0 then AsteroidHit(a) else a],
       lasers := ShootLasers(a, w.lasers), score := w.score + LASER_POINTS * n)
  }

  /** Asteroid `i` tested against every rocket, on its own. */
  function RocketPass(w: Arena, i: nat): (r: Arena)
    requires i < |w.asteroids|
    ensures |r.asteroids| == |w.asteroids| && r.lasers == w.lasers && r.playing == w.playing
    ensures forall k :: 0 <= k < |w.asteroids| && k != i ==> r.asteroids[k] == w.asteroids[k]
  {
    var a := w.asteroids[i];
    var n := RocketHitCount(a, w.rockets);
    w.(asteroids := w.asteroids[i := if n > 0 then AsteroidHit(a) else a],
       rockets := ShootRockets(a, w.rockets), score := w.score + ROCKET_POINTS * n)
  }

  /** The pass's treatment of an eligible asteroid is its pass against every laser,
      then against every rocket, then the ship test: a laser's hit does not change
      which rockets the asteroid meets. */
  lemma ResolveInSteps(w: Arena, i: nat, s: ShipState)
    requires i < |w.asteroids| && Eligible(w.asteroids[i])
    ensures RocketPass(LaserPass(w, i), i).asteroids[i] ==
      (if LaserHitCount(w.asteroids[i], w.lasers) + RocketHitCount(w.asteroids[i], w.rockets) > 0
       then AsteroidHit(w.asteroids[i]) else w.asteroids[i])
    ensures Resolve(w, i, s) == RocketPass(LaserPass(w, i), i).(playing := w.playing && !RamsShip(w.asteroids[i], s))
  {
    HitKeepsTargets(w.asteroids[i], w.lasers, w.rockets);
  }
}
