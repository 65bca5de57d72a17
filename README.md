# SpaceCommander: a verified model of the game simulation

SpaceCommander is a browser arcade shooter. The player's ship sits on an 800 x 600
playfield that wraps around at its edges. The arrow keys turn the ship by 4 degrees
per tick and push it 7 units forward or 4 units back. Space fires a laser. "m"
fires a single hand-fired rocket, but only while no such rocket is on screen. "n"
fires a volley of ten rockets spread 36 degrees apart, at most once every 10000 ms.
Six asteroids drift and spin across the field. A laser or rocket that touches a
drifting asteroid is switched off and scores 10 or 30 points, and the asteroid
starts exploding. An exploding asteroid stands still and disappears after 19
ticks. A drifting asteroid that touches the ship ends the game. Every tick of the game
loop does four things in order:

1. It moves everything.
2. It runs the collision pass.
3. It drops whatever was switched off.
4. It tops the asteroid field up to six again.

The model has two layers.

- **Values.** Each entity has a value datatype: `ShipState`, `LaserState`,
  `RocketState`, `AsteroidState` and `GameState`. Spec functions describe what one
  step does to these values (`ShipStep`, `RocketStep`, `AsteroidStep`,
  `AfterTick`, `AfterKeyDown`, `AfterVolley`, `AfterStart`, `AfterSpeedChange`).
  The lemmas are stated about these functions.
- **Objects.** The classes `Ship`, `Laser`, `Rocket`, `Asteroid` and `Game` mirror
  the program's objects and globals. Their methods update fields in place with the
  program's own loops, and each method's `ensures` ties its new state to the spec
  function applied to the old state.

Files:

- `playfield.dfy`: constants, the wrap and the circle test.
- `ship.dfy`: the ship.
- `projectiles.dfy`: lasers and rockets.
- `asteroid.dfy`: asteroids.
- `collision.dfy`: the collision pass over one snapshot of the arena.
- `filter.dfy`: order-preserving `Array.prototype.filter`.
- `session.dfy`: the whole game on values, plus its invariant.
- `game.dfy`: the game's globals as a class.

The inputs the game reads from its host become parameters:

- Trigonometry is a `Trig` value: a cosine and a sine of an angle in degrees,
  left uninterpreted. Some lemmas require them to lie in [-1, 1].
- `Math.random()` becomes an `AsteroidDraws` record of the seven draws an
  asteroid's constructor makes. Code that creates asteroids takes a supplier
  `nat -> AsteroidDraws`, where the k-th asteroid made in that call uses `draws(k)`.
- `performance.now()` becomes a `now: real` argument.
- The keys map becomes the set of keys whose entry is true.

## Model

| member | source | states |
|---|---|---|
| Playfield.WrapAxis | spacecommander.js:178-181 | one axis of the wrap changes the value by at most one correction; it adds the bound iff the value is below 0, subtracts it iff the value is above the bound, and keeps it iff it already lies in the closed interval (so exactly the bound is kept) |
| Playfield.WrapKeepsInside | spacecommander.js:334-337 | a coordinate in [0, bound] moved by less than the bound either way is back in the closed [0, bound] after one wrap |
| Playfield.WrapPointKeepsInside | spacecommander.js:178-181 | a point in the closed box, moved by less than the box size on each axis, is in the box after the wrap |
| Playfield.CollideSymmetric | spacecommander.js:434-437 | the strict circle test gives the same answer with its two objects swapped |
| Playfield.CollideWider | spacecommander.js:434-437 | a collision at radius r is also one at any larger radius |
| Ships.NewShip | spacecommander.js:102-107 | a new ship is in the middle of the playfield with heading 0 |
| Ships.ShipTurns | spacecommander.js:168-169 | a tick changes the heading by -4 for left and +4 for right; both keys cancel out and no key keeps it |
| Ships.ShipIdle | spacecommander.js:170-181 | without the up or down key a ship on the playfield does not move |
| Ships.ShipStaysOnField | spacecommander.js:167-182 | a ship inside the closed playfield is still inside after any tick, whatever keys are held |
| Ships.Ship.constructor | spacecommander.js:102-107 | the constructed ship is the new ship value |
| Ships.Ship.Update | spacecommander.js:167-182 | the in-place update (turn, thrust forward, thrust back, four wrap tests) leaves the ship in the state ShipStep computes |
| Ships.Ship.Thrust | spacecommander.js:170-177 | forward thrust moves 7 along the new heading, then backward thrust moves 4 against it |
| Ships.Ship.WrapAround | spacecommander.js:178-181 | the four sequential tests leave the position equal to the wrap of the old position |
| Projectiles.NewLaser | spacecommander.js:186-191 | a new laser is active, at the given point, with the given heading |
| Projectiles.NewRocket | spacecommander.js:207-214 | a new rocket is active, has an empty trail, is not hand-fired, and is at the given point and heading |
| Projectiles.LaserLeavesField | spacecommander.js:192-197 | a laser moves 12 along its unchanged heading; an active laser becomes inactive iff its new position is outside the closed box; an inactive laser never becomes active |
| Projectiles.RocketLeavesField | spacecommander.js:215-222 | the same for a rocket moving 6; the heading and the hand-fired flag are kept, and a trail of at most 14 entries stays at most 14 |
| Projectiles.Window | spacecommander.js:216-217 | the window of a history, the part of it a trail can hold, has at most 14 entries |
| Projectiles.PushTrailIsWindow | spacecommander.js:216-217 | appending the pre-move position and then dropping the oldest entry past 14 turns the window of a history into the window of the longer history; the result has at most 14 entries and ends with the new position |
| Projectiles.TrailIsRecentWake | spacecommander.js:215-217 | after any number of ticks the trail is exactly the last (at most 14) positions the rocket moved away from, oldest first |
| Projectiles.Laser.constructor | spacecommander.js:186-191 | the constructed laser is the new laser value |
| Projectiles.Laser.Update | spacecommander.js:192-197 | the in-place update leaves the laser in the state LaserStep computes |
| Projectiles.Rocket.constructor | spacecommander.js:207-214 | the constructed rocket is the new rocket value |
| Projectiles.Rocket.Update | spacecommander.js:215-222 | the in-place update (push, shift past 14, move, switch off outside the box) leaves the rocket in the state RocketStep computes |
| Asteroids.SpawnInRange | spacecommander.js:281-292 | a new asteroid made from draws in [0, 1) is active, not exploding, has count 0, lies inside the playfield, has size in [36, 80) and base speed in [2, 4), and its speed is base speed times the multiplier |
| Asteroids.AsteroidHit | spacecommander.js:427-430 | a hit sets exploding, resets the count to 0 and changes nothing else |
| Asteroids.AsteroidRespeed | spacecommander.js:326-328 | recomputing the speed sets speed to base speed times the multiplier and changes nothing else, base speed included |
| Asteroids.ExplosionCountdown | spacecommander.js:338-341 | while exploding, n ticks keep position, rotation, size and the exploding flag, raise the count by exactly n, and keep the asteroid active exactly while the count has not passed 18 |
| Asteroids.ExplosionLasts | spacecommander.js:338-341 | after a hit an active asteroid is still active after 18 ticks and switched off by the 19th |
| Asteroids.DriftStaysOnField | spacecommander.js:330-337 | a drifting asteroid inside the playfield, slower than the field height, is still inside after a tick |
| Asteroids.Asteroid.constructor | spacecommander.js:281-292 | the constructed asteroid is Spawn of the draws and the current multiplier |
| Asteroids.Asteroid.UpdateSpeed | spacecommander.js:326-328 | the in-place update leaves the asteroid in the state AsteroidRespeed computes |
| Asteroids.Asteroid.Update | spacecommander.js:329-342 | the in-place update leaves the asteroid in the state AsteroidStep computes (drift and wrap, or count and switch off after 18) |
| Asteroids.Asteroid.Drift | spacecommander.js:330-337 | the position becomes the wrap of the position advanced by speed along the heading, and rotation grows by the spin |
| Asteroids.Asteroid.WrapAround | spacecommander.js:334-337 | the four sequential tests leave the position equal to the wrap of the old position |
| Asteroids.Asteroid.Hit | spacecommander.js:427-430 | the in-place hit leaves the asteroid in the state AsteroidHit computes |
| Collision.ShootLasers | spacecommander.js:459-463 | against one asteroid every laser keeps its place; a laser ends up active iff it was active and does not collide at radius size/2, and no other field of it changes |
| Collision.ShootRockets | spacecommander.js:464-468 | the same for rockets at radius size/2 + 12 |
| Collision.ResolveTouchesOne | spacecommander.js:457-458 | resolving asteroid i leaves every other asteroid unchanged |
| Collision.PassLeavesRest | spacecommander.js:457 | after the first n asteroids are resolved, the asteroids from n on are untouched |
| Collision.PassLaserFate | spacecommander.js:457-463 | after the pass over the first n asteroids, a laser is switched off iff one of those asteroids, eligible when it was reached, overlaps it while the laser is still active, and is otherwise unchanged |
| Collision.PassRocketFate | spacecommander.js:457-468 | the same for rockets |
| Collision.PassShipFate | spacecommander.js:469-471 | after the pass over the first n asteroids, the game is still on iff it was on and no eligible one among them overlaps the ship at radius size/2 + SHIP_SIZE/3 |
| Collision.LaserHitCountPositive | spacecommander.js:459-463 | an asteroid scores at least one laser hit iff some listed laser is active and within size/2 |
| Collision.RocketHitCountPositive | spacecommander.js:464-468 | the same for rockets within size/2 + 12 |
| Collision.RocketReachesFurther | spacecommander.js:460-465 | an active rocket at the same spot as a laser hits every asteroid (of non-negative size) the laser hits, because its radius is 12 wider |
| Collision.LaserClaimsAt | spacecommander.js:459-463 | an eligible asteroid n hits some laser during the pass iff some original laser is claimed by it (it overlaps n and no earlier asteroid took it) |
| Collision.RocketClaimsAt | spacecommander.js:464-468 | the same for rockets |
| Collision.PassAsteroidFate | spacecommander.js:457-468 | after the pass, each asteroid it reached is hit iff it was eligible and claimed some laser or rocket; otherwise it is unchanged |
| Collision.OnlyOffPointwise | spacecommander.js:461-466 | the pass may only switch projectiles off: the flags after are pointwise implied by the flags before |
| Collision.ShootLasersDowns | spacecommander.js:459-463 | shooting switches lasers off only, and the number switched off is exactly the asteroid's laser-hit count |
| Collision.ShootRocketsDowns | spacecommander.js:464-468 | the same for rockets |
| Collision.DownedAdds | spacecommander.js:457-468 | projectiles switched off over two stages add up, and the combined change still only switches off |
| Collision.ResolveScored | spacecommander.js:457-468 | resolving one asteroid raises the score by 10 per laser and 30 per rocket it switched off, and switches nothing on |
| Collision.ScoredTrans | spacecommander.js:457-468 | this scoring relation composes over consecutive asteroids |
| Collision.PassScore | spacecommander.js:457-468 | over the whole pass the score rises by exactly 10 per laser and 30 per rocket switched off, so it never decreases |
| Collision.HitKeepsTargets | spacecommander.js:458-466 | a hit leaves position and size alone, so the later tests against the same asteroid give the same hits |
| Collision.LaserPass | spacecommander.js:459-463 | one asteroid against all lasers leaves the rockets, the game flag and every other asteroid unchanged |
| Collision.RocketPass | spacecommander.js:464-468 | one asteroid against all rockets leaves the lasers, the game flag and every other asteroid unchanged |
| Collision.ResolveInSteps | spacecommander.js:458-471 | resolving an eligible asteroid is the laser loop, then the rocket loop, then the ship test on the asteroid as it was, and it is hit iff either loop found a hit |
| Filtering.Filter | spacecommander.js:474-476 | filtering never lengthens a list |
| Filtering.FilterMembers | spacecommander.js:474-476 | an element is kept iff it was present and passes the test |
| Filtering.FilterConcat | spacecommander.js:474-476 | filtering distributes over concatenation, so the original order is preserved |
| Filtering.FilterAllKept | spacecommander.js:474-476 | a list whose every element passes is kept unchanged |
| Filtering.FilterSnoc | spacecommander.js:474-476 | filtering a list with one more element appends that element iff it passes |
| Session.Spawns | spacecommander.js:519 | every asteroid made for a new field is active, not exploding, has count 0, and has speed equal to its base speed times the multiplier |
| Session.Respeeded | spacecommander.js:89 | every asteroid in the list gets speed equal to its base speed times the new multiplier, and nothing else about it changes |
| Session.Volley | spacecommander.js:500-507 | a volley is ten rockets |
| Session.ManualRocket | spacecommander.js:548-554 | the hand-fired rocket is active, hand-fired and has an empty trail; it starts at the ship's nose, SHIP_SIZE ahead along the ship's heading, and flies on that heading |
| Session.ManualCountPositive | spacecommander.js:478 | some rocket is hand-fired iff the number of hand-fired rockets is positive |
| Session.ManualCountFilter | spacecommander.js:475 | dropping inactive rockets never adds hand-fired ones |
| Session.ManualCountVolley | spacecommander.js:505 | no volley rocket is hand-fired |
| Session.InitialConsistent | spacecommander.js:92-98 | the state after loading satisfies the invariant, with no game on and score 0 |
| Session.PassKeepsLasers | spacecommander.js:457-463 | the collision pass keeps every laser in its place, either unchanged or only switched off |
| Session.PassKeepsRockets | spacecommander.js:464-468 | the same for rockets |
| Session.ResolvedBounds | spacecommander.js:452-473 | after moving and the collision pass, at most one hand-fired rocket remains, the score is non-negative, there are at most six asteroids and trails are at most 14 long |
| Session.PrunedConsistent | spacecommander.js:474-478 | pruning restores the invariant: only active entities are listed and the on-screen flag matches the rockets |
| Session.TickConsistent | spacecommander.js:440-481 | a tick keeps the invariant: everything listed is active, trails are at most 14 long, at most one hand-fired rocket exists and the flag says whether one does, the score is non-negative, and there are at most six asteroids |
| Session.ReplenishFills | spacecommander.js:480-481 | the respawn loop yields six asteroids (or the survivors, if already that many), survivors first and in order, then new asteroids made from successive draws |
| Session.TickEffects | spacecommander.js:440-481 | during a game a tick leaves exactly six active asteroids and a score no lower than before, and keeps the game on iff no eligible asteroid overlaps the moved ship |
| Session.TickScore | spacecommander.js:457-468 | a tick adds exactly 10 per laser and 30 per rocket switched off by the pass |
| Session.AppendUnmanned | spacecommander.js:505-506 | appending rockets that are not hand-fired changes neither the hand-fired count nor the on-screen flag |
| Session.VolleyConsistent | spacecommander.js:493-508 | the volley keeps the invariant |
| Session.ManualFireConsistent | spacecommander.js:548-556 | firing by hand keeps the invariant |
| Session.KeyDownConsistent | spacecommander.js:539-563 | every key press keeps the invariant |
| Session.KeyUpConsistent | spacecommander.js:564-566 | a key release keeps the invariant and changes nothing but the held keys |
| Session.VolleyRockets | spacecommander.js:499-506 | volley rocket i has heading ship angle + 36·i, appears SHIP_SIZE ahead along that heading, is active, has an empty trail and is not hand-fired |
| Session.VolleyCooldown | spacecommander.js:493-508 | once the cooldown has passed, the volley appends exactly the ten volley rockets and records the time; any further request within 10000 ms changes nothing |
| Session.StartAllowsVolley | spacecommander.js:522 | after a game starts, a volley requested at that time or later fires |
| Session.ManualFireOnce | spacecommander.js:548-556 | during a game "m"/"M" appends the hand-fired rocket iff none is on screen, always leaves the flag set, and a second press before pruning adds nothing |
| Session.KeysWhileIdle | spacecommander.js:440-441 | with no game on, key presses and ticks change nothing, and a key pressed then released is not held |
| Session.KeyHeldUntilReleased | spacecommander.js:541 | during a game a pressed key is held, and releasing it removes exactly that key |
| Session.StartConsistent | spacecommander.js:510-526 | starting a game from any state yields a state that satisfies the invariant |
| Session.SpeedChange | spacecommander.js:86-90 | the slider sets each asteroid's speed to base speed times value/2 and changes nothing else; repeating it changes nothing; the invariant is kept |
| Game.DistinctSnoc | spacecommander.js:506 | pushing an object not yet in the list keeps the list free of repeats |
| Game.ActiveLasersViews | spacecommander.js:474 | filtering the laser objects by their flag gives exactly the filtered laser states, and keeps the list free of repeats |
| Game.ActiveRocketsViews | spacecommander.js:475 | the same for rockets |
| Game.ActiveAsteroidsViews | spacecommander.js:476 | the same for asteroids |
| Game.Game.constructor | spacecommander.js:92-98 | the globals after loading are the initial state, with the multiplier taken from the slider (2 when empty) |
| Game.Game.StartGame | spacecommander.js:510-526 | starting a game is the reset followed by the first tick of the loop |
| Game.Game.Reset | spacecommander.js:515-523 | new ship, empty lists, six new asteroids, score 0, game on, cooldown set to now - 10000, flag cleared |
| Game.Game.SpawnField | spacecommander.js:519 | the six-asteroid loop creates fresh, distinct asteroids from successive draws |
| Game.Game.EndGame | spacecommander.js:527-528 | ending the game clears `playing` |
| Game.Game.GameLoop | spacecommander.js:440-491 | the in-place loop performs AfterTick: nothing without a game, else move, collide, prune and respawn |
| Game.Game.AdvanceAll | spacecommander.js:452-455 | updating the ship and every laser, rocket and asteroid in place performs the move phase |
| Game.Game.UpdateLasers | spacecommander.js:453 | the forEach over lasers steps each of them and nothing else |
| Game.Game.UpdateRockets | spacecommander.js:454 | the forEach over rockets steps each of them and nothing else |
| Game.Game.UpdateAsteroids | spacecommander.js:455 | the forEach over asteroids steps each of them and nothing else |
| Game.Game.ResolveCollisions | spacecommander.js:457-473 | the in-place collision pass performs the collision phase on the whole game state |
| Game.Game.ResolveAll | spacecommander.js:457-473 | the forEach over asteroids resolves them one by one, in order |
| Game.Game.ResolveAsteroid | spacecommander.js:458-472 | one asteroid of the forEach: if eligible, lasers, then rockets, then the ship test |
| Game.Game.ShipAgainst | spacecommander.js:469-471 | the ship test ends the game iff the asteroid overlaps the ship |
| Game.Game.ShootLasersAt | spacecommander.js:459-463 | the laser forEach for asteroid i performs the laser stage |
| Game.Game.LasersAgainst | spacecommander.js:459-463 | after the laser forEach the lasers are exactly the shot lasers, the score has grown by 10 per hit, and the asteroid is hit iff some laser hit it |
| Game.Game.LaserAgainst | spacecommander.js:460-462 | one laser: it is switched off and scores 10 iff it hits the asteroid |
| Game.Game.ShootRocketsAt | spacecommander.js:464-468 | the rocket forEach for asteroid i performs the rocket stage |
| Game.Game.RocketsAgainst | spacecommander.js:464-468 | after the rocket forEach the rockets are exactly the shot rockets, the score has grown by 30 per hit, and the asteroid is hit iff some rocket hit it |
| Game.Game.RocketAgainst | spacecommander.js:465-467 | one rocket: it is switched off and scores 30 iff it hits the asteroid |
| Game.Game.PruneAll | spacecommander.js:474-478 | the three filters and the flag update perform the prune phase |
| Game.Game.PruneLasers | spacecommander.js:474 | the lasers become exactly the active ones, in order |
| Game.Game.PruneRockets | spacecommander.js:475 | the rockets become exactly the active ones, in order |
| Game.Game.PruneAsteroids | spacecommander.js:476 | the asteroids become exactly the active ones, in order |
| Game.Game.UpdateRocketOnScreen | spacecommander.js:478 | the flag becomes true iff some remaining rocket is hand-fired |
| Game.Game.RespawnAsteroids | spacecommander.js:480-481 | the while loop performs the respawn phase |
| Game.Game.KeyDown | spacecommander.js:539-563 | the keydown handler performs AfterKeyDown |
| Game.Game.FireLaser | spacecommander.js:542-547 | space appends one laser at the nose along the ship's heading |
| Game.Game.FireManualRocket | spacecommander.js:548-557 | "m"/"M" appends a hand-fired rocket and sets the flag iff the flag was clear, and otherwise changes nothing |
| Game.Game.KeyUp | spacecommander.js:564-566 | the keyup handler performs AfterKeyUp |
| Game.Game.FireMultiRockets | spacecommander.js:493-508 | the in-place volley performs AfterVolley: nothing during the cooldown, else record the time and launch |
| Game.Game.LaunchVolley | spacecommander.js:499-507 | the for loop keeps the old rockets as a prefix and appends ten newly allocated rocket objects, no repeats, whose states are the volley rockets in order |
| Game.Game.SetSpeedFromSlider | spacecommander.js:86-90 | the slider handler performs AfterSpeedChange |
| Game.Game.RespeedAll | spacecommander.js:89 | the forEach recomputes every asteroid's speed from the new multiplier and changes nothing else |

## Definitions

These functions define the model's behaviour. Their contracts are stated by the
lemmas named in the last column rather than by ensures clauses of their own.

| definition | source | properties stated by |
|---|---|---|
| Playfield.Advance | spacecommander.js:172-177, 331-332 | Projectiles.LaserLeavesField, Projectiles.RocketLeavesField, Ships.ShipStaysOnField, Asteroids.DriftStaysOnField, Asteroids.Asteroid.Drift, Session.ManualRocket |
| Playfield.Wrap | spacecommander.js:178-181, 334-337 | Playfield.WrapAxis, Playfield.WrapPointKeepsInside, Ships.Ship.WrapAround |
| Playfield.Collide | spacecommander.js:434-437 | Playfield.CollideSymmetric, Playfield.CollideWider |
| Ships.Turn, Ships.ShipStep | spacecommander.js:167-182 | Ships.ShipTurns, Ships.ShipIdle, Ships.ShipStaysOnField, Ships.Ship.Update |
| Projectiles.LaserStep | spacecommander.js:192-197 | Projectiles.LaserLeavesField, Projectiles.Laser.Update |
| Projectiles.PushTrail, Projectiles.RocketStep | spacecommander.js:215-222 | Projectiles.PushTrailIsWindow, Projectiles.TrailIsRecentWake, Projectiles.RocketLeavesField |
| Asteroids.Spawn | spacecommander.js:281-292 | Asteroids.SpawnInRange, Asteroids.Asteroid.constructor |
| Asteroids.AsteroidStep | spacecommander.js:329-342 | Asteroids.ExplosionCountdown, Asteroids.ExplosionLasts, Asteroids.DriftStaysOnField |
| Asteroids.Age | spacecommander.js:329-342 | Asteroids.ExplosionCountdown, Asteroids.ExplosionLasts |
| Collision.Eligible | spacecommander.js:458 | Collision.PassShipFate, Collision.PassAsteroidFate |
| Collision.LaserHits | spacecommander.js:460 | Collision.LaserHitCountPositive, Collision.RocketReachesFurther |
| Collision.RocketHits | spacecommander.js:465 | Collision.RocketHitCountPositive, Collision.RocketReachesFurther |
| Collision.RamsShip | spacecommander.js:469 | Collision.PassShipFate |
| Collision.LaserHitCount | spacecommander.js:459-463 | Collision.LaserHitCountPositive, Collision.ShootLasersDowns |
| Collision.RocketHitCount | spacecommander.js:464-468 | Collision.RocketHitCountPositive, Collision.ShootRocketsDowns |
| Collision.LaserFlags, Collision.RocketFlags | spacecommander.js:474-475 | Collision.ShootLasersDowns, Collision.ShootRocketsDowns, Collision.PassScore, Session.TickScore |
| Collision.Resolve, Collision.ResolveUpTo, Collision.CollisionPass | spacecommander.js:457-473 | Collision.PassLaserFate, Collision.PassRocketFate, Collision.PassShipFate, Collision.PassAsteroidFate, Collision.PassScore |
| Session.StepLasers, Session.StepRockets, Session.StepAsteroids | spacecommander.js:453-455 | Projectiles.LaserLeavesField, Projectiles.RocketLeavesField, Asteroids.ExplosionCountdown, Game.Game.AdvanceAll |
| Session.Nose | spacecommander.js:502-503, 543-544 | Session.VolleyRockets, Session.ManualRocket, Game.Game.FireLaser |
| Session.AnyManual | spacecommander.js:478 | Session.ManualCountPositive, Session.PrunedConsistent |
| Session.ManualCount | spacecommander.js:478 | Session.ManualCountPositive, Session.ManualCountFilter |
| Session.Initial | spacecommander.js:92-98 | Session.InitialConsistent |
| Session.Advanced, Session.Resolved, Session.Pruned, Session.Replenish, Session.Replenished, Session.AfterTick | spacecommander.js:440-481 | Session.TickConsistent, Session.TickEffects, Session.TickScore, Session.ReplenishFills |
| Session.AfterVolley | spacecommander.js:493-508 | Session.VolleyCooldown, Session.VolleyConsistent |
| Session.AfterKeyDown, Session.AfterKeyUp | spacecommander.js:539-566 | Session.KeyDownConsistent, Session.KeyUpConsistent, Session.ManualFireOnce, Session.KeysWhileIdle, Session.KeyHeldUntilReleased |
| Session.AfterReset, Session.AfterStart | spacecommander.js:510-526 | Session.StartConsistent, Session.StartAllowsVolley |
| Session.AfterSpeedChange | spacecommander.js:86-90 | Session.SpeedChange |
| Game.Game.NewWorld | spacecommander.js:515-519 | Game.Game.Reset |
| Game.ActiveLasers, Game.ActiveRockets, Game.ActiveAsteroids | spacecommander.js:474-476 | Game.ActiveLasersViews, Game.ActiveRocketsViews, Game.ActiveAsteroidsViews |

## Left out

- Drawing is not modelled: the `draw` methods, stars, moon, comic outlines, colours, the ship's `flame` field and every DOM update are rendering only.
- Host scheduling is not modelled. `requestAnimationFrame`, the 600 ms `setTimeout` in `endGame` and the listener registration are left out; each tick, key press, key release and slider move is a method call instead.
- The second keydown listener (spacecommander.js:567-570) only calls `preventDefault` and is left out.
- `restartGame` only calls `startGame`, so it has no member of its own.
- `Math.cos` and `Math.sin` are not interpreted. They are the `Trig` parameter, and the lemmas that need bounds require values in [-1, 1].
- `Math.random()` is replaced by draws passed in, and `performance.now()` by a time passed in; neither source of randomness or time is modelled.
- Floating point is modelled as exact reals. Rounding in positions, speeds and the cooldown subtraction is not captured.
- The `keys` object is modelled as the set of keys currently true. Keys set to false and keys never pressed are not distinguished, and the ship reads only truthiness, so nothing observable is lost.
- `score` and `playing` are undefined until the first `startGame`; the model starts them at 0 and false, which behaves the same for `if(!playing)`.
- The slider value is a number in the model. Parsing it with `Number(...)` is not modelled, except for the empty slider falling back to 2 at load.
- Asteroids.DriftStaysOnField: assumes the speed is non-negative and below the field height; the slider range is not part of this model.
- Ships.ShipStaysOnField: requires the trigonometry to lie in [-1, 1], since `Trig` is otherwise uninterpreted.
- The ship's heading and the asteroid heading are never reduced modulo 360, matching the code. A description of the game that wraps the heading into [0, 360) is not followed.
- A position of exactly WIDTH or HEIGHT is kept by the wrap (the tests are `< 0` and `> WIDTH`), so positions live in the closed box. A description that says positions stay below WIDTH is not followed.
- `ship` is undefined until the first `startGame`; the model starts it as a new ship in the middle of the field. Nothing reads it before a game starts, because every handler that uses it returns early while `playing` is not true.
