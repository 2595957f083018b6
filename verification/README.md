# Space shooter: a Dafny model of the per-frame update rules

The game is a small arcade shooter written against pygame. A ship steered
with W/A/S/D dodges meteors and shoots them with SPACE. Meteors fall from
above the 1280x720 window, lasers fly up, and hits play a short explosion.
The game ends when the ship touches a meteor or the window is closed.

This project models the game logic of `code/main.py` as pure step functions
over immutable records:

- `Player`: reading the keys, the window clamp, normalising the direction,
  the move, and the fire cooldown.
- `Laser`: flying up, and removal when off screen or on a hit.
- `Meteor`: the random spawn, spinning, falling, and the 2000 ms lifetime.
- `Explosion`: the fractional frame index and self-removal.
- `Game`: the event loop, the update walk over the sprite group in
  insertion order, the ship/meteor collision, and the one-way `running`
  flag.

Conventions:

- Time is whole milliseconds. A frame's `delta_time` is `clock.tick()`
  milliseconds divided by 1000.
- Coordinates are exact reals.
- The key state, the raw random draws and the two pixel-mask collision
  tests are parameters.
- Every `get_ticks()` call within one frame reads the same `now`.

Modules: `Wrappers` (Option), `Geometry` (points, rectangles, the window,
frame seconds), `Random` (`randint`, `random`, `uniform` as functions of a
raw draw), `Player`, `Laser`, `Meteor`, `Explosion`, `Game`.

## Behaviour worth knowing

- A ship that fits in the window is inside it right after the clamp block
  (code/main.py:33-41), but not always at the end of the frame, because the
  move (line 45) comes after the clamp. For such a ship, `Player.Update`
  promises that every edge stays within `300 * dt` of the window;
  `Player.UpdateCanLeaveWindow` shows one ending a frame outside, and the
  next frame's clamp brings it back inside. A ship wider or taller than the
  window is never brought inside.
- The cooldown timer (line 55) runs after the fire test (line 48). In the
  first frame in which 400 ms have passed, a shot is still refused. The gun
  is freed at the end of that frame, so the shot can happen one frame later
  (`Player.ShotWaitsForTimer`). Shots are never closer than 400 ms
  (`Player.ShotsAreSpaced`).
- `uniform(-0.5, 0.5)` is `-0.5 + random()` with `random()` in `[0, 1)`, so
  the horizontal direction lies in `[-0.5, 0.5)`.
- An explosion is removed in the frame its index reaches the number of
  frames (the `>=` of line 126).
- When an edge is outside the window, a diagonal direction is not
  normalised, even if only one axis is clamped. `Player.MoveDirection`
  states exactly when the direction differs from the raw key heading.
- A laser created during the group update (line 49) and an explosion
  created during it (line 77) are first moved in the next frame, while a
  meteor created by a timer event of the frame (line 197) already takes its
  first step in that frame.

## Model

| member | source | states |
|---|---|---|
| Random.RandInt | code/main.py:94-96 | `randint(a, b)` lies in `[a, b]` for every raw draw |
| Random.RandIntReachesEveryValue | code/main.py:195-196 | every value of `[a, b]` is produced by some draw |
| Random.Unit | code/main.py:93 | `random()` lies in `[0, 1)` and is a whole multiple of 2^-53 |
| Random.Uniform | code/main.py:93 | `uniform(a, b)` lies in `[a, b]`, and below `b` when `a < b` |
| Random.UniformBounds | code/main.py:93 | `a + (b - a) * u` with `u` in `[0, 1)` lies in `[a, b]`, and below `b` when `a < b` |
| Geometry.Seconds | code/main.py:189 | the frame time is non-negative and 1000 times it is the `clock.tick()` milliseconds |
| Meteor.SpawnPosition | code/main.py:195-196 | the spawn point is a whole-number point with x in [0, 1280] and y in [-100, 0] |
| Meteor.New | code/main.py:85-96 | a new meteor has speed in [400, 500], rotation speed in [40, 85], direction (h, 1) with h in [-0.5, 0.5), angle 0, its creation tick, and is centred on the spawn point |
| Meteor.Mod360 | code/main.py:105 | the float `% 360` lands in [0, 360) and leaves an increment already in [0, 360) unchanged |
| Meteor.Mod360Unique | code/main.py:105 | `% 360` agrees with any split of x into a multiple of 360 plus a remainder in [0, 360) |
| Meteor.Expired | code/main.py:98-102 | a meteor is due for removal iff the tick has reached its creation tick plus 2000 ms, so never at its creation tick |
| Meteor.Step | code/main.py:104-111 | the meteor is removed iff it is due by its lifetime; otherwise the angle grows by the reduced increment (in [0, 360)), the centre moves by direction times speed times dt, nothing else changes, and the constructor ranges are kept |
| Meteor.StepFalls | code/main.py:107 | a surviving meteor moves down by at least 400 times dt |
| Meteor.RunLifetime | code/main.py:98-102 | over any run of frames with a monotone clock, the meteor is alive iff the last tick is under 2000 ms past its creation, keeping its ranges |
| Meteor.OneSecondOfFall | code/main.py:104-107 | a meteor at (640, -50) falling at 450 per second is at (640, 400) after a 1000 ms frame |
| Laser.New | code/main.py:66-70 | the laser's midbottom is the given point |
| Laser.Advance | code/main.py:73 | the laser's centre y drops by exactly 750 times dt; x and size are kept |
| Laser.Step | code/main.py:72-81 | the laser is removed iff it hit a meteor or its bottom is above 0; a kept laser is the moved one; an explosion is spawned iff it hit, at the moved laser's midtop |
| Laser.StepRises | code/main.py:73-81 | a surviving laser is strictly higher after a frame that took time; one that is not hit and is far enough down survives |
| Explosion.GameFrames | code/main.py:165 | the loaded animation has 21 frames, all different images |
| Explosion.New | code/main.py:115-121 | a new explosion has index 0 and shows the frame its index points at |
| Explosion.Step | code/main.py:123-129 | the explosion is removed iff the index plus 35 times dt reaches the frame count; otherwise the index grows by 35 times dt and the frame read is a valid index |
| Explosion.RunLifetime | code/main.py:123-129 | over any run of frames, the explosion is alive iff its index plus 35 per second of elapsed time is below the frame count, and then that is its index |
| Explosion.GameExplosionLasts600ms | code/main.py:124-127 | with the 21 loaded frames, an explosion lives exactly while less than 600 ms of frame time has passed |
| Player.New | code/main.py:8-17 | the ship starts centred in the window, not moving, free to shoot |
| Player.AxisOf | code/main.py:28-29 | each direction component is 1, -1 or 0 exactly as only the positive key, only the negative key, or both or neither are held |
| Player.KeyHeading | code/main.py:28-29 | x is 1 iff D is held without A and -1 iff A is held without D; y likewise with S and W; the heading is zero iff each opposite pair is both held or both released |
| Player.Normalize | code/main.py:43 | normalising keeps zero at zero, straight headings unchanged and every sign; a diagonal gets length 1 to within 2e-16 |
| Player.CollidesBorderIsOutside | code/main.py:30-31 | the border test is true iff the rectangle is not inside the window |
| Player.Clamp | code/main.py:33-41 | the clamp keeps the size, puts a ship that fits inside the window, and leaves an inside rectangle unchanged |
| Player.ClampIsNearestInside | code/main.py:33-41 | for a ship that fits, the clamped left and top are the nearest positions that keep it inside |
| Player.MoveDirection | code/main.py:28-43 | the move direction has components in [-1, 1] with the key signs; it differs from the raw heading iff no edge is outside and the heading is diagonal |
| Player.LaserTimer | code/main.py:19-24 | the gun is free afterwards iff it was free or `now - laser_shoot_time >= 400`; nothing else changes |
| Player.Steer | code/main.py:27-45 | the ship ends at the clamped rectangle shifted by its direction times 300 times dt; the size and everything but rectangle and direction are kept; the direction is the key heading rule; a ship that fits ends within 300 times dt of the window; with no key held it is only clamped |
| Player.Shoot | code/main.py:47-55 | a laser is fired iff SPACE was just pressed and the gun was free, from the ship's midtop, stamping `now` and blocking the gun; otherwise the stamp is kept and the timer rule applies; position is untouched |
| Player.Update | code/main.py:26-55 | the ship ends at the clamped rectangle shifted by its direction times 300 times dt; a laser is fired iff SPACE was just pressed and the gun was free; firing places the laser at the ship's new midtop, stamps `now` and blocks the gun; otherwise the stamp is kept and the timer rule applies; the size is kept; with no key held the ship is just clamped; a ship that fits ends within 300 times dt of the window |
| Player.UpdateCanLeaveWindow | code/main.py:33-45 | a ship inside the window, touching the left edge and steered left, ends the frame 4.8 units outside |
| Player.ShotWaitsForTimer | code/main.py:48-55 | with the gun blocked, a shot is refused even when 400 ms have passed, and the gun is free at the end of that frame |
| Player.ShotsSpacedFrom | code/main.py:19-24 | the cooldown invariant over any run of frames: shots are pairwise 400 ms apart and at least 400 ms after the previous one |
| Player.ShotsAreSpaced | code/main.py:48-53 | from a new ship, any two shots over any run of frames with a monotone clock are at least 400 ms apart |
| Game.HandleEvents | code/main.py:191-197 | the game stays running iff it was running and no quit event came; one new meteor is appended per timer event, each with the constructor ranges, its creation tick and its centre at or above the top edge; the meteor of every timer event is in the group; earlier sprites are kept |
| Game.Spawned | code/main.py:195-197 | a timer event's meteor has the constructor ranges, angle 0, the event's tick, and a centre with x in [0, 1280] and y in [-100, 0] |
| Game.KillHits | code/main.py:75 | the laser's hit removes exactly the meteors whose mask it touches and leaves every other sprite as it was |
| Game.KillHitsChangesIffHit | code/main.py:75-76 | the group changes iff the laser touched some meteor |
| Game.Own | code/main.py:72-129 | a sprite's own update keeps its kind and leaves nothing due for removal; a laser is kept iff its moved bottom is not above the window, and then it is the moved laser; meteor ranges are kept |
| Game.Blast | code/main.py:77 | a laser's explosion starts at index 0, showing, centred on the moved laser's midtop |
| Game.UpdateOne | code/main.py:72-81 | the sprite becomes its own update, except a laser whose moved mask touches a meteor: it is removed together with exactly the meteors it touches and leaves one explosion at its moved top; every other entry is unchanged |
| Game.UpdateFrom | code/main.py:199 | every sprite kept from the walk's start on is the own update of the sprite that was there; an explosion there is exactly its own update; earlier entries are unchanged or removed meteors; sprites born during the walk are showing explosions appended after the earlier ones; meteor ranges are kept |
| Game.FramePass | code/main.py:199 | every entry left after the frame's group update is the own update of the sprite of the group after the events at that position, and the ship's new laser heads the born list |
| Game.WalkRemovesOnlyTouched | code/main.py:75-76 | a meteor that the walk removes while it is not due by its lifetime was touched by the moved mask of a laser the walk updates, where it was or where its own step took it |
| Game.WalkKeepsUntouched | code/main.py:104-111 | a meteor not due for removal that no laser of the walk touches, before or after its move, survives as its own update |
| Game.WalkKeepsClearLaser | code/main.py:72-81 | a laser that stays in the window and whose moved mask is clear of every meteor survives the walk, moved up |
| Game.WalkBlastsComeFromLasers | code/main.py:75-77 | every explosion born during the walk sits at the moved top of a laser of the walk that the walk removed |
| Game.WalkRemovedLaserBlasts | code/main.py:75-81 | a laser the walk removes while it is still in the window was hit, so its explosion was born |
| Game.Compact | code/main.py:72-129 | after the removals the group holds every sprite still in it exactly once, each after exactly the surviving sprites that preceded it |
| Game.WalkOutcome | code/main.py:199 | over the whole group: untouched meteors, clear lasers and live explosions survive as their own update; every kept sprite is the own update of a group sprite; every born explosion is that of a group laser |
| Game.Collided | code/main.py:136 | the collision list holds exactly the group's meteors that the ship's mask touches, each once and in group order |
| Game.ShipHit | code/main.py:133-137 | the ship is hit iff some meteor in the group touches it |
| Game.Step | code/main.py:188-201 | after a frame the game runs iff it ran, no quit event came, and the ship touches no meteor left in the group; no expired meteor and no explosion past its last frame survives; meteor ranges are kept; the ship is the updated ship |
| Game.StepSprites | code/main.py:190-199 | after a frame the ship's new laser is in the group; untouched meteors, clear lasers and live explosions of the group after the events survive as their own update; every other sprite is the own update of a sprite of that group or the explosion of one of its lasers |
| Game.StepOrder | code/main.py:49-199 | the group after a frame is the kept sprites, each once and in their group order, followed by the born sprites in birth order, the ship's new laser first |
| Game.SpawnedMeteorJoins | code/main.py:194-199 | a meteor spawned in a frame is not due at once, and unless a laser touches it, it ends the frame in the group having taken its first step |
| Game.Frames | code/main.py:188-201 | the game's frame function ends the game on a quit event and never turns a finished game back on |
| Game.Loop | code/main.py:188 | the loop ends running only if it started running; with a frame function that honours quit events, a loop still running saw no quit event in any frame |
| Game.Run | code/main.py:188-201 | a finished game stays finished, and a quit event in any frame ends the game |
| Game.LoopRunningOnlyFalls | code/main.py:188 | running after some frames implies running after every shorter prefix, for any frame function, since the loop stops at the first finished world |
| Game.RunningOnlyFalls | code/main.py:192-193 | if the game still runs after some frames, it ran after every shorter prefix of them: the flag goes from true to false at most once |

## Left out

- Rendering, window and font setup, image loading, `display_score` and the
  star field (code/main.py:58-62, 139-183, 203-207): they are drawing and
  asset I/O with no effect on the game state.
- Audio (code/main.py:50, 78, 177-183): fire-and-forget side effects.
- The pixel-mask tests `collide_mask` (code/main.py:75, 136) are library
  internals. They are the `laserHits` and `playerHits` parameters of
  `Game.Env`.
- Image rotation and the resized rectangle of a meteor (code/main.py:108-109)
  depend on pygame's resampling. A meteor is kept as its centre, which the
  re-centring preserves.
- The integer rounding of `get_rect` for an explosion (code/main.py:121): an
  explosion keeps the exact centre it was spawned at.
- Float rounding everywhere: coordinates, speeds and frame times are exact
  reals.
- Player.Normalize: a diagonal component is the decimal 0.7071067811865475
  that Python prints, not 1/sqrt(2) or the exact double, so the unit length
  is stated to within 2e-16 rather than exactly.
- The random generator's state: every `randint`/`uniform` call takes an
  arbitrary raw draw. So every whole number of `[a, b]` is possible for
  `randint`, and every value `a + (b - a) * k / 2^53` with
  `0 <= k < 2^53` for `uniform`, whose upper end `b` is therefore never
  returned when `a < b`.
- The 500 ms meteor timer (code/main.py:185-186), the event queue, and
  `clock.tick` pacing: events and frame times are inputs of each frame.
- `Group.update` still calls `update()` on a meteor that an earlier laser of
  the same walk removed (code/main.py:75, 199). That meteor is in no group
  any more, so nothing it does is drawn, tested or kept; the walk skips it.
- Distinct `get_ticks()` readings within one frame: one `now` is used for
  the whole frame.
