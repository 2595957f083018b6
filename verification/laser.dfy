/**
  `Laser` (code/main.py:65-81): a projectile that flies straight up at 750
  units per second. It removes itself when its bottom edge is above the top
  of the window, or when its mask touches a meteor; a hit also spawns an
  explosion at the laser's top. Which meteors the mask test touched is
  decided by the caller (the game frame), which also removes those meteors.
 */
module Laser {
  import opened Wrappers
  import opened Geometry
  import Explosion

  /** Upward speed in units per second (code/main.py:73). */
  const Speed: real := 750.0

  datatype Laser = Laser(rect: Rect)

  /** The constructor: the laser image is placed with its midbottom at `pos` (code/main.py:66-70). */
  function New(pos: Vec, width: real, height: real): (r: Laser)
    ensures r.rect.MidBottom() == pos
    ensures r.rect.width == width && r.rect.height == height
  {
    Laser(RectAtMidBottom(pos, width, height))
  }

  /** `self.rect.centery -= 750 * delta_time` (code/main.py:73). */
  function Advance(l: Laser, dtMs: nat): (r: Laser)
    ensures r.rect.Center().y == l.rect.Center().y - Speed * Seconds(dtMs)
    ensures r.rect.Center().x == l.rect.Center().x
    ensures r.rect.width == l.rect.width && r.rect.height == l.rect.height
  {
    Laser(l.rect.(top := l.rect.top - Speed * Seconds(dtMs)))
  }

  /** What one laser update leaves behind: the laser if it survived, and the explosion it spawned. */
  datatype Outcome = Outcome(laser: Option<Laser>, explosion: Option<Explosion.Explosion>)

  /**
    One `update` (code/main.py:72-81). `hit` is the result of the mask test
    of the moved laser against the meteor group. `frames` are the explosion
    frames the spawned explosion plays.
   */
  function Step(l: Laser, dtMs: nat, hit: bool, frames: seq<Explosion.Surface>): (r: Outcome)
    requires |frames| > 0
    ensures r.laser.None? <==> hit || Advance(l, dtMs).rect.Bottom() < 0.0
    ensures r.laser.Some? ==> r.laser.value == Advance(l, dtMs) && 0.0 <= r.laser.value.rect.Bottom()
    ensures r.explosion.Some? <==> hit
    ensures r.explosion.Some? ==>
              && r.explosion.value == Explosion.New(frames, r.explosion.value.center)
              && r.explosion.value.center == Advance(l, dtMs).rect.MidTop()
  {
    var moved := Advance(l, dtMs);
    var explosion := if hit then Some(Explosion.New(frames, moved.rect.MidTop())) else None;
    var killed := hit || moved.rect.Bottom() < 0.0;
    Outcome(if killed then None else Some(moved), explosion)
  }

  /**
    A surviving laser is strictly higher after a frame that took time, and
    a laser keeps flying exactly until its bottom passes above the window
    or it hits a meteor.
   */
  lemma StepRises(l: Laser, dtMs: nat, hit: bool, frames: seq<Explosion.Surface>)
    requires |frames| > 0 && dtMs > 0
    ensures Step(l, dtMs, hit, frames).laser.Some? ==>
              Step(l, dtMs, hit, frames).laser.value.rect.top < l.rect.top
    ensures !hit && l.rect.Bottom() >= Speed * Seconds(dtMs) ==> Step(l, dtMs, hit, frames).laser.Some?
  {
  }
}
