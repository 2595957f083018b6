/**
  The main loop (code/main.py:133-137, 185-201): one frame handles the
  queued events, updates every sprite in the order it joined the sprite
  group, and checks the ship against the meteors.

  The ship joins the group before every laser, meteor and explosion, so it
  is updated first. `Group.update` walks a copy of the group's list: a
  sprite created during the walk (the ship's laser, an explosion) is first
  updated in the next frame. A meteor an earlier laser removed is still
  visited, but it belongs to no group any more, so its update changes
  nothing that is drawn, tested or kept; the model skips it. The
  pixel-mask tests are parameters of the frame.
 */
module Game {
  import opened Wrappers
  import opened Geometry
  import Player
  import Laser
  import Meteor
  import Explosion

  datatype Sprite =
    | LaserSprite(laser: Laser.Laser)
    | MeteorSprite(meteor: Meteor.Meteor)
    | ExplosionSprite(explosion: Explosion.Explosion)

  /** `running`, the ship, and the other members of `all_sprites` in the order they joined it. */
  datatype World = World(running: bool, player: Player.Player, sprites: seq<Sprite>)

  /** The events the loop reacts to; any other event is ignored. */
  datatype Event =
    | Quit
    | MeteorTimer(xDraw: nat, yDraw: nat, draws: Meteor.Draws)
    | Other

  /** One frame of input: `clock.tick()`, `get_ticks()`, the event queue and the keyboard. */
  datatype Frame = Frame(dtMs: nat, now: int, events: seq<Event>, keys: Player.Keys, fire: bool)

  /**
    What the frame does not compute itself: the laser image size, and the
    two pixel-mask collision tests of code/main.py:75 and 136.
   */
  datatype Env = Env(
    laserWidth: real,
    laserHeight: real,
    laserHits: (Laser.Laser, Meteor.Meteor) -> bool,
    playerHits: (Player.Player, Meteor.Meteor) -> bool)

  /** A meteor as the spawn event creates it at tick `now` (code/main.py:195-197, 85-96). */
  predicate NewlySpawned(m: Meteor.Meteor, now: int) {
    && m.Valid() && m.angle == 0.0 && m.startTime == now
    && 0.0 <= m.center.x <= WindowWidth && -100.0 <= m.center.y <= 0.0
  }

  function Spawns(events: seq<Event>): nat {
    if |events| == 0 then 0
    else (if events[0].MeteorTimer? then 1 else 0) + Spawns(events[1..])
  }

  datatype Handled = Handled(running: bool, sprites: seq<Sprite>)

  /**
    The event loop of code/main.py:191-197: a quit event clears `running`,
    a meteor timer event adds a new meteor at a random spot above the
    window. All events are handled even after a quit.
   */
  function HandleEvents(running: bool, sprites: seq<Sprite>, events: seq<Event>, now: int): (r: Handled)
    ensures r.running <==> running && Quit !in events
    ensures |r.sprites| == |sprites| + Spawns(events)
    ensures r.sprites[..|sprites|] == sprites
    ensures forall k :: |sprites| <= k < |r.sprites| ==>
              r.sprites[k].MeteorSprite? && NewlySpawned(r.sprites[k].meteor, now)
    ensures forall k :: 0 <= k < |events| && events[k].MeteorTimer? ==>
              MeteorSprite(Spawned(events[k], now)) in r.sprites
    decreases |events|
  {
    if |events| == 0 then Handled(running, sprites)
    else
      assert forall k :: 1 <= k < |events| ==> events[k] == events[1..][k - 1];
      match events[0]
      case Quit => HandleEvents(false, sprites, events[1..], now)
      case Other => HandleEvents(running, sprites, events[1..], now)
      case MeteorTimer(_, _, _) =>
        var grown := sprites + [MeteorSprite(Spawned(events[0], now))];
        var r := HandleEvents(running, grown, events[1..], now);
        assert r.sprites[..|grown|][|sprites|] == r.sprites[|sprites|];
        r
  }

  /** The meteor a timer event creates at tick `now` (code/main.py:195-197). */
  function Spawned(e: Event, now: int): (m: Meteor.Meteor)
    requires e.MeteorTimer?
    ensures NewlySpawned(m, now)
  {
    Meteor.New(Meteor.SpawnPosition(e.xDraw, e.yDraw), now, e.draws)
  }

  /** The meteor at position `j` of the group is touched by the mask of `l`. */
  predicate HitAt(es: seq<Option<Sprite>>, j: int, l: Laser.Laser, hits: (Laser.Laser, Meteor.Meteor) -> bool)
    requires 0 <= j < |es|
  {
    es[j].Some? && es[j].value.MeteorSprite? && hits(l, es[j].value.meteor)
  }

  predicate AnyHit(es: seq<Option<Sprite>>, l: Laser.Laser, hits: (Laser.Laser, Meteor.Meteor) -> bool) {
    exists j :: 0 <= j < |es| && HitAt(es, j, l, hits)
  }

  /**
    `spritecollide(laser, meteor_sprites, True, collide_mask)`
    (code/main.py:75): every meteor the laser touches is removed, and
    nothing else changes.
   */
  function KillHits(es: seq<Option<Sprite>>, l: Laser.Laser, hits: (Laser.Laser, Meteor.Meteor) -> bool): (r: seq<Option<Sprite>>)
    ensures |r| == |es|
    ensures forall j :: 0 <= j < |es| ==> (r[j].None? <==> es[j].None? || HitAt(es, j, l, hits))
    ensures forall j :: 0 <= j < |es| && r[j].Some? ==> r[j] == es[j]
  {
    seq(|es|, j requires 0 <= j < |es| => if HitAt(es, j, l, hits) then None else es[j])
  }

  /** The removal changes the group exactly when the laser touched a meteor. */
  lemma KillHitsChangesIffHit(es: seq<Option<Sprite>>, l: Laser.Laser, hits: (Laser.Laser, Meteor.Meteor) -> bool)
    ensures KillHits(es, l, hits) != es <==> AnyHit(es, l, hits)
  {
    var r := KillHits(es, l, hits);
    if AnyHit(es, l, hits) {
      var j :| 0 <= j < |es| && HitAt(es, j, l, hits);
      assert r[j] != es[j];
    } else {
      assert forall j :: 0 <= j < |es| ==> r[j] == es[j];
    }
  }

  /** A sprite that has just been updated and kept: it is not due for removal. */
  predicate Fresh(s: Sprite, now: int) {
    match s
    case LaserSprite(l) => 0.0 <= l.rect.Bottom()
    case MeteorSprite(m) => !Meteor.Expired(m, now)
    case ExplosionSprite(e) => e.Showing()
  }

  predicate SameKind(a: Sprite, b: Sprite) {
    (a.LaserSprite? && b.LaserSprite?) || (a.MeteorSprite? && b.MeteorSprite?) || (a.ExplosionSprite? && b.ExplosionSprite?)
  }

  predicate MeteorsValid(es: seq<Option<Sprite>>) {
    forall j :: 0 <= j < |es| && es[j].Some? && es[j].value.MeteorSprite? ==> es[j].value.meteor.Valid()
  }

  datatype Pass = Pass(group: seq<Option<Sprite>>, born: seq<Sprite>)

  /**
    A sprite's own update, collisions aside: the laser moved up unless it
    left the window, the meteor's and the explosion's own `Step`. `None`
    means the sprite removes itself.
   */
  function Own(s: Sprite, dtMs: nat, now: int): (r: Option<Sprite>)
    ensures r.Some? ==> SameKind(s, r.value) && Fresh(r.value, now)
    ensures s.LaserSprite? ==> r == (if Laser.Advance(s.laser, dtMs).rect.Bottom() < 0.0 then None else Some(LaserSprite(Laser.Advance(s.laser, dtMs))))
    ensures s.MeteorSprite? && s.meteor.Valid() && r.Some? ==> r.value.meteor.Valid()
  {
    match s
    case LaserSprite(l) =>
      var out := Laser.Step(l, dtMs, false, Explosion.GameFrames());
      if out.laser.Some? then Some(LaserSprite(out.laser.value)) else None
    case MeteorSprite(m) =>
      var next := Meteor.Step(m, dtMs, now);
      if next.Some? then Some(MeteorSprite(next.value)) else None
    case ExplosionSprite(e) =>
      var next := Explosion.Step(e, dtMs);
      if next.Some? then Some(ExplosionSprite(next.value)) else None
  }

  /** The explosion a laser leaves where its moved mask touched a meteor (code/main.py:77). */
  function Blast(l: Laser.Laser, dtMs: nat): (r: Sprite)
    ensures r.ExplosionSprite? && r.explosion.Showing() && r.explosion.frameIndex == 0.0
    ensures r.explosion.center == Laser.Advance(l, dtMs).rect.MidTop()
  {
    ExplosionSprite(Explosion.New(Explosion.GameFrames(), Laser.Advance(l, dtMs).rect.MidTop()))
  }

  /** The sprite at position `i` is a laser whose moved mask touches some meteor of the group. */
  predicate LaserHitsAt(es: seq<Option<Sprite>>, i: nat, dtMs: nat, hits: (Laser.Laser, Meteor.Meteor) -> bool)
    requires i < |es|
  {
    es[i].Some? && es[i].value.LaserSprite? && AnyHit(es, Laser.Advance(es[i].value.laser, dtMs), hits)
  }

  /**
    The update of one sprite of the snapshot (code/main.py:72-129); `None`
    entries were removed earlier. The sprite becomes its own update, except
    that a laser whose moved mask touches a meteor is removed together with
    every meteor it touches and leaves an explosion at its top.
   */
  function UpdateOne(es: seq<Option<Sprite>>, i: nat, born: seq<Sprite>, dtMs: nat, now: int, env: Env): (r: Pass)
    requires i < |es| && es[i].Some?
    ensures |r.group| == |es|
    ensures r.group[i] == if LaserHitsAt(es, i, dtMs, env.laserHits) then None else Own(es[i].value, dtMs, now)
    ensures forall j :: 0 <= j < |es| && j != i ==>
              r.group[j] == if es[i].value.LaserSprite? && HitAt(es, j, Laser.Advance(es[i].value.laser, dtMs), env.laserHits) then None else es[j]
    ensures r.born == born + if LaserHitsAt(es, i, dtMs, env.laserHits) then [Blast(es[i].value.laser, dtMs)] else []
    ensures MeteorsValid(es) ==> MeteorsValid(r.group)
  {
    match es[i].value
    case MeteorSprite(m) =>
      var next := Meteor.Step(m, dtMs, now);
      Pass(es[i := if next.Some? then Some(MeteorSprite(next.value)) else None], born)
    case ExplosionSprite(e) =>
      var next := Explosion.Step(e, dtMs);
      Pass(es[i := if next.Some? then Some(ExplosionSprite(next.value)) else None], born)
    case LaserSprite(l) =>
      var moved := Laser.Advance(l, dtMs);
      var out := Laser.Step(l, dtMs, AnyHit(es, moved, env.laserHits), Explosion.GameFrames());
      var group := KillHits(es, moved, env.laserHits);
      var born' := born + if out.explosion.Some? then [ExplosionSprite(out.explosion.value)] else [];
      Pass(group[i := if out.laser.Some? then Some(LaserSprite(out.laser.value)) else None], born')
  }

  /**
    `all_sprites.update(delta_time)` from position `i` of the snapshot on.
    Every sprite kept at or after `i` is its own update; a sprite before `i`
    is only ever removed, and only if it is a meteor (hit by a later laser).
    An explosion is never removed by anything but its own update. The
    sprites born during the walk are explosions.
   */
  function UpdateFrom(es: seq<Option<Sprite>>, i: nat, born: seq<Sprite>, dtMs: nat, now: int, env: Env): (r: Pass)
    requires i <= |es|
    ensures |r.group| == |es|
    ensures forall j :: i <= j < |es| && r.group[j].Some? ==> es[j].Some? && r.group[j] == Own(es[j].value, dtMs, now)
    ensures forall j :: i <= j < |es| && es[j].Some? && es[j].value.ExplosionSprite? ==> r.group[j] == Own(es[j].value, dtMs, now)
    ensures forall j :: 0 <= j < i ==> r.group[j] == es[j] || (r.group[j].None? && es[j].Some? && es[j].value.MeteorSprite?)
    ensures MeteorsValid(es) ==> MeteorsValid(r.group)
    ensures |born| <= |r.born| && r.born[..|born|] == born
    ensures forall k :: |born| <= k < |r.born| ==> r.born[k].ExplosionSprite? && r.born[k].explosion.Showing()
    decreases |es| - i
  {
    if i == |es| then Pass(es, born)
    else if es[i].None? then UpdateFrom(es, i + 1, born, dtMs, now, env)
    else
      var one := UpdateOne(es, i, born, dtMs, now, env);
      UpdateFrom(one.group, i + 1, one.born, dtMs, now, env)
  }

  /** Some laser of the walk from position `i` on, once moved, touches `m`. */
  predicate LaserTouches(es: seq<Option<Sprite>>, i: nat, m: Meteor.Meteor, dtMs: nat, hits: (Laser.Laser, Meteor.Meteor) -> bool) {
    exists k :: i <= k < |es| && es[k].Some? && es[k].value.LaserSprite? && hits(Laser.Advance(es[k].value.laser, dtMs), m)
  }

  /**
    The moved laser `l` touches no meteor of the group, neither where it is
    nor, for a meteor the walk from `i` on has still to update, where its own
    update takes it.
   */
  predicate Clear(es: seq<Option<Sprite>>, i: nat, l: Laser.Laser, dtMs: nat, now: int, hits: (Laser.Laser, Meteor.Meteor) -> bool) {
    forall j :: 0 <= j < |es| && es[j].Some? && es[j].value.MeteorSprite? ==>
      && !hits(l, es[j].value.meteor)
      && (i <= j && Meteor.Step(es[j].value.meteor, dtMs, now).Some? ==> !hits(l, Meteor.Step(es[j].value.meteor, dtMs, now).value))
  }

  /** Lasers are never removed by another sprite's update, so a laser still in the later group was in the earlier one. */
  lemma TouchesFromLater(es: seq<Option<Sprite>>, es': seq<Option<Sprite>>, i: nat, m: Meteor.Meteor, dtMs: nat, hits: (Laser.Laser, Meteor.Meteor) -> bool)
    requires |es'| == |es| && i < |es|
    requires forall k :: i < k < |es| ==> es'[k] == es[k] || es'[k].None?
    ensures LaserTouches(es', i + 1, m, dtMs, hits) ==> LaserTouches(es, i, m, dtMs, hits)
  {
    if LaserTouches(es', i + 1, m, dtMs, hits) {
      var k :| i + 1 <= k < |es'| && es'[k].Some? && es'[k].value.LaserSprite? && hits(Laser.Advance(es'[k].value.laser, dtMs), m);
      assert es'[k] == es[k];
    }
  }

  /**
    A meteor the walk removes without its lifetime being over was touched by
    the moved mask of a laser the walk updates: where the meteor was, or
    where its own update took it.
   */
  lemma {:induction false} WalkRemovesOnlyTouched(es: seq<Option<Sprite>>, i: nat, born: seq<Sprite>, dtMs: nat, now: int, env: Env)
    requires i <= |es|
    ensures forall j :: 0 <= j < |es| && es[j].Some? && es[j].value.MeteorSprite?
                        && UpdateFrom(es, i, born, dtMs, now, env).group[j].None?
                        && (j < i || Meteor.Step(es[j].value.meteor, dtMs, now).Some?) ==>
              || LaserTouches(es, i, es[j].value.meteor, dtMs, env.laserHits)
              || (i <= j && LaserTouches(es, i, Meteor.Step(es[j].value.meteor, dtMs, now).value, dtMs, env.laserHits))
    decreases |es| - i
  {
    var r := UpdateFrom(es, i, born, dtMs, now, env);
    if i < |es| {
      var es' := if es[i].None? then es else UpdateOne(es, i, born, dtMs, now, env).group;
      var born' := if es[i].None? then born else UpdateOne(es, i, born, dtMs, now, env).born;
      assert r == UpdateFrom(es', i + 1, born', dtMs, now, env);
      WalkRemovesOnlyTouched(es', i + 1, born', dtMs, now, env);
      forall j | 0 <= j < |es| && es[j].Some? && es[j].value.MeteorSprite? && r.group[j].None?
                 && (j < i || Meteor.Step(es[j].value.meteor, dtMs, now).Some?)
        ensures || LaserTouches(es, i, es[j].value.meteor, dtMs, env.laserHits)
                || (i <= j && LaserTouches(es, i, Meteor.Step(es[j].value.meteor, dtMs, now).value, dtMs, env.laserHits))
      {
        var m := es[j].value.meteor;
        if j != i && es'[j].None? {
          assert es[i].value.LaserSprite? && HitAt(es, j, Laser.Advance(es[i].value.laser, dtMs), env.laserHits);
          assert LaserTouches(es, i, m, dtMs, env.laserHits);
        } else if j != i {
          assert es'[j] == es[j];
          TouchesFromLater(es, es', i, m, dtMs, env.laserHits);
          if i + 1 <= j {
            TouchesFromLater(es, es', i, Meteor.Step(m, dtMs, now).value, dtMs, env.laserHits);
          }
        } else {
          var moved := Meteor.Step(m, dtMs, now).value;
          assert es'[i] == Some(MeteorSprite(moved));
          TouchesFromLater(es, es', i, moved, dtMs, env.laserHits);
        }
      }
    }
  }

  /**
    A meteor that is not due for removal and that no laser of the walk
    touches, before or after it moves, survives as its own update.
   */
  lemma {:induction false} WalkKeepsUntouched(es: seq<Option<Sprite>>, i: nat, born: seq<Sprite>, dtMs: nat, now: int, env: Env)
    requires i <= |es|
    ensures forall j :: i <= j < |es| && es[j].Some? && es[j].value.MeteorSprite?
                        && Meteor.Step(es[j].value.meteor, dtMs, now).Some?
                        && !LaserTouches(es, i, es[j].value.meteor, dtMs, env.laserHits)
                        && !LaserTouches(es, i, Meteor.Step(es[j].value.meteor, dtMs, now).value, dtMs, env.laserHits) ==>
              UpdateFrom(es, i, born, dtMs, now, env).group[j] == Some(MeteorSprite(Meteor.Step(es[j].value.meteor, dtMs, now).value))
  {
    var r := UpdateFrom(es, i, born, dtMs, now, env);
    WalkRemovesOnlyTouched(es, i, born, dtMs, now, env);
    forall j | i <= j < |es| && es[j].Some? && es[j].value.MeteorSprite?
               && Meteor.Step(es[j].value.meteor, dtMs, now).Some?
               && !LaserTouches(es, i, es[j].value.meteor, dtMs, env.laserHits)
               && !LaserTouches(es, i, Meteor.Step(es[j].value.meteor, dtMs, now).value, dtMs, env.laserHits)
      ensures r.group[j] == Some(MeteorSprite(Meteor.Step(es[j].value.meteor, dtMs, now).value))
    {
      assert r.group[j].Some?;
    }
  }

  /** A laser that stays in the window and whose moved mask is clear of every meteor survives the walk, moved up. */
  lemma {:induction false} WalkKeepsClearLaser(es: seq<Option<Sprite>>, i: nat, born: seq<Sprite>, dtMs: nat, now: int, env: Env)
    requires i <= |es|
    ensures forall j :: i <= j < |es| && es[j].Some? && es[j].value.LaserSprite?
                        && 0.0 <= Laser.Advance(es[j].value.laser, dtMs).rect.Bottom()
                        && Clear(es, i, Laser.Advance(es[j].value.laser, dtMs), dtMs, now, env.laserHits) ==>
              UpdateFrom(es, i, born, dtMs, now, env).group[j] == Some(LaserSprite(Laser.Advance(es[j].value.laser, dtMs)))
    decreases |es| - i
  {
    var r := UpdateFrom(es, i, born, dtMs, now, env);
    if i < |es| {
      var es' := if es[i].None? then es else UpdateOne(es, i, born, dtMs, now, env).group;
      var born' := if es[i].None? then born else UpdateOne(es, i, born, dtMs, now, env).born;
      assert r == UpdateFrom(es', i + 1, born', dtMs, now, env);
      WalkKeepsClearLaser(es', i + 1, born', dtMs, now, env);
      forall j | i <= j < |es| && es[j].Some? && es[j].value.LaserSprite?
                 && 0.0 <= Laser.Advance(es[j].value.laser, dtMs).rect.Bottom()
                 && Clear(es, i, Laser.Advance(es[j].value.laser, dtMs), dtMs, now, env.laserHits)
        ensures r.group[j] == Some(LaserSprite(Laser.Advance(es[j].value.laser, dtMs)))
      {
        var l := Laser.Advance(es[j].value.laser, dtMs);
        if j == i {
          assert !AnyHit(es, l, env.laserHits);
          assert es'[i] == Some(LaserSprite(l));
        } else {
          assert es'[j] == es[j];
          assert Clear(es', i + 1, l, dtMs, now, env.laserHits) by {
            forall k | 0 <= k < |es'| && es'[k].Some? && es'[k].value.MeteorSprite?
              ensures !env.laserHits(l, es'[k].value.meteor)
            {
              if k == i {
                assert es'[i] == Own(es[i].value, dtMs, now);
              } else {
                assert es'[k] == es[k];
              }
            }
          }
        }
      }
    }
  }

  /** `s` is the explosion of a laser at or after position `i` that the pass removed. */
  predicate BlastOfRemovedLaser(es: seq<Option<Sprite>>, i: nat, r: Pass, s: Sprite, dtMs: nat)
    requires |r.group| == |es|
  {
    exists j :: i <= j < |es| && es[j].Some? && es[j].value.LaserSprite? && r.group[j].None?
                && s == Blast(es[j].value.laser, dtMs)
  }

  /** Each explosion born after `born` is the explosion of a laser at or after `i` that the pass removed. */
  predicate BlastsFromLasers(es: seq<Option<Sprite>>, i: nat, born: seq<Sprite>, r: Pass, dtMs: nat)
    requires |r.group| == |es|
  {
    forall k :: |born| <= k < |r.born| ==> BlastOfRemovedLaser(es, i, r, r.born[k], dtMs)
  }

  /** Each explosion born during the walk sits at the top of a laser of the walk that the walk removed. */
  lemma {:induction false} WalkBlastsComeFromLasers(es: seq<Option<Sprite>>, i: nat, born: seq<Sprite>, dtMs: nat, now: int, env: Env)
    requires i <= |es|
    ensures BlastsFromLasers(es, i, born, UpdateFrom(es, i, born, dtMs, now, env), dtMs)
    decreases |es| - i
  {
    var r := UpdateFrom(es, i, born, dtMs, now, env);
    if i < |es| {
      var es' := if es[i].None? then es else UpdateOne(es, i, born, dtMs, now, env).group;
      var born' := if es[i].None? then born else UpdateOne(es, i, born, dtMs, now, env).born;
      assert r == UpdateFrom(es', i + 1, born', dtMs, now, env);
      WalkBlastsComeFromLasers(es', i + 1, born', dtMs, now, env);
      forall k | |born| <= k < |r.born|
        ensures BlastOfRemovedLaser(es, i, r, r.born[k], dtMs)
      {
        if k < |born'| {
          assert r.born[k] == r.born[..|born'|][k] == born'[k];
          assert LaserHitsAt(es, i, dtMs, env.laserHits);
          assert r.born[k] == Blast(es[i].value.laser, dtMs);
          assert r.group[i].None?;
        } else {
          assert BlastOfRemovedLaser(es', i + 1, r, r.born[k], dtMs);
          var j :| i + 1 <= j < |es'| && es'[j].Some? && es'[j].value.LaserSprite? && r.group[j].None?
                   && r.born[k] == Blast(es'[j].value.laser, dtMs);
          assert es'[j] == es[j];
        }
      }
    } else {
      assert r.born == born;
    }
  }

  lemma InLaterSuffix(xs: seq<Sprite>, n: nat, m: nat, x: Sprite)
    requires n <= m <= |xs| && x in xs[m..]
    ensures x in xs[n..]
  {
    var k :| 0 <= k < |xs[m..]| && xs[m..][k] == x;
    assert xs[n..][k + m - n] == x;
  }

  /** A laser the walk removes while it is still in the window was hit, so it left its explosion. */
  lemma {:induction false} WalkRemovedLaserBlasts(es: seq<Option<Sprite>>, i: nat, born: seq<Sprite>, dtMs: nat, now: int, env: Env)
    requires i <= |es|
    ensures var r := UpdateFrom(es, i, born, dtMs, now, env);
            forall j :: i <= j < |es| && es[j].Some? && es[j].value.LaserSprite? && r.group[j].None?
                        && 0.0 <= Laser.Advance(es[j].value.laser, dtMs).rect.Bottom() ==>
              Blast(es[j].value.laser, dtMs) in r.born[|born|..]
    decreases |es| - i
  {
    var r := UpdateFrom(es, i, born, dtMs, now, env);
    if i < |es| {
      var es' := if es[i].None? then es else UpdateOne(es, i, born, dtMs, now, env).group;
      var born' := if es[i].None? then born else UpdateOne(es, i, born, dtMs, now, env).born;
      assert r == UpdateFrom(es', i + 1, born', dtMs, now, env);
      WalkRemovedLaserBlasts(es', i + 1, born', dtMs, now, env);
      forall j | i <= j < |es| && es[j].Some? && es[j].value.LaserSprite? && r.group[j].None?
                 && 0.0 <= Laser.Advance(es[j].value.laser, dtMs).rect.Bottom()
        ensures Blast(es[j].value.laser, dtMs) in r.born[|born|..]
      {
        var x := Blast(es[j].value.laser, dtMs);
        if j == i {
          assert LaserHitsAt(es, i, dtMs, env.laserHits);
          assert born'[|born|] == x;
          assert r.born[|born|] == r.born[..|born'|][|born|];
          assert r.born[|born|..][0] == x;
        } else {
          assert es'[j] == es[j];
          InLaterSuffix(r.born, |born|, |born'|, x);
        }
      }
    }
  }

  /** The number of sprites still in the group. */
  function Live(es: seq<Option<Sprite>>): nat {
    if |es| == 0 then 0 else (if es[0].Some? then 1 else 0) + Live(es[1..])
  }

  /**
    The sprites still in the group, each once and in group order: the
    sprite at position `j` comes after exactly the live sprites before it.
   */
  function Compact(es: seq<Option<Sprite>>): (r: seq<Sprite>)
    ensures |r| == Live(es)
    ensures forall j :: 0 <= j < |es| && es[j].Some? ==> Live(es[..j]) < |r| && r[Live(es[..j])] == es[j].value
    ensures forall s :: s in r <==> Some(s) in es
    decreases |es|
  {
    if |es| == 0 then []
    else
      var rest := Compact(es[1..]);
      var r := (if es[0].Some? then [es[0].value] else []) + rest;
      assert forall j :: 1 <= j < |es| ==> es[..j][1..] == es[1..][..j - 1];
      assert forall j :: 1 <= j < |es| ==> Live(es[..j]) == (if es[0].Some? then 1 else 0) + Live(es[1..][..j - 1]);
      assert forall j :: 1 <= j < |es| ==> es[j] == es[1..][j - 1];
      assert Live(es[..0]) == 0;
      r
  }

  /** The ship's mask touches the sprite, a meteor. */
  predicate HitsShip(p: Player.Player, s: Sprite, hits: (Player.Player, Meteor.Meteor) -> bool) {
    s.MeteorSprite? && hits(p, s.meteor)
  }

  /** The number of meteors of `sprites` that the ship's mask touches. */
  function HitCount(p: Player.Player, sprites: seq<Sprite>, hits: (Player.Player, Meteor.Meteor) -> bool): nat {
    if |sprites| == 0 then 0 else (if HitsShip(p, sprites[0], hits) then 1 else 0) + HitCount(p, sprites[1..], hits)
  }

  /**
    `spritecollide(player, meteor_sprites, False, collide_mask)`
    (code/main.py:136): the meteors of the group the ship's mask touches,
    each once and in group order; none is removed.
   */
  function Collided(p: Player.Player, sprites: seq<Sprite>, hits: (Player.Player, Meteor.Meteor) -> bool): (r: seq<Meteor.Meteor>)
    ensures |r| == HitCount(p, sprites, hits)
    ensures forall j :: 0 <= j < |sprites| && HitsShip(p, sprites[j], hits) ==>
              HitCount(p, sprites[..j], hits) < |r| && r[HitCount(p, sprites[..j], hits)] == sprites[j].meteor
    ensures forall m :: m in r <==> MeteorSprite(m) in sprites && hits(p, m)
    decreases |sprites|
  {
    if |sprites| == 0 then []
    else
      var rest := Collided(p, sprites[1..], hits);
      assert forall s :: s in sprites <==> s == sprites[0] || s in sprites[1..];
      assert forall j :: 1 <= j < |sprites| ==> sprites[..j][1..] == sprites[1..][..j - 1];
      assert forall j :: 1 <= j < |sprites| ==>
        HitCount(p, sprites[..j], hits) == (if HitsShip(p, sprites[0], hits) then 1 else 0) + HitCount(p, sprites[1..][..j - 1], hits);
      assert forall j :: 1 <= j < |sprites| ==> sprites[j] == sprites[1..][j - 1];
      assert HitCount(p, sprites[..0], hits) == 0;
      if HitsShip(p, sprites[0], hits) then [sprites[0].meteor] + rest else rest
  }

  /** `collisions()` (code/main.py:133-137): the game ends when the collision list is not empty. */
  function ShipHit(p: Player.Player, sprites: seq<Sprite>, hits: (Player.Player, Meteor.Meteor) -> bool): (r: bool)
    ensures r <==> exists s :: s in sprites && s.MeteorSprite? && hits(p, s.meteor)
  {
    var c := Collided(p, sprites, hits);
    if |c| > 0 then assert c[0] in c; true else false
  }

  function Wrap(sprites: seq<Sprite>): (r: seq<Option<Sprite>>)
    ensures |r| == |sprites| && forall j :: 0 <= j < |r| ==> r[j] == Some(sprites[j])
  {
    seq(|sprites|, j requires 0 <= j < |sprites| => Some(sprites[j]))
  }

  predicate AllMeteorsValid(sprites: seq<Sprite>) {
    forall s :: s in sprites && s.MeteorSprite? ==> s.meteor.Valid()
  }

  /** Some laser of `g`, once moved, touches `m`. */
  predicate Touched(g: seq<Sprite>, m: Meteor.Meteor, dtMs: nat, hits: (Laser.Laser, Meteor.Meteor) -> bool) {
    exists s :: s in g && s.LaserSprite? && hits(Laser.Advance(s.laser, dtMs), m)
  }

  /** The moved laser `l` touches no meteor of `g`, neither where it is nor where its own update takes it. */
  predicate ClearOfMeteors(g: seq<Sprite>, l: Laser.Laser, dtMs: nat, now: int, hits: (Laser.Laser, Meteor.Meteor) -> bool) {
    forall s :: s in g && s.MeteorSprite? ==>
      && !hits(l, s.meteor)
      && (Meteor.Step(s.meteor, dtMs, now).Some? ==> !hits(l, Meteor.Step(s.meteor, dtMs, now).value))
  }

  /** `s` is the own update of a sprite of `g`. */
  predicate UpdatedFrom(g: seq<Sprite>, s: Sprite, dtMs: nat, now: int) {
    exists s0 :: s0 in g && Own(s0, dtMs, now) == Some(s)
  }

  /** `s` is the explosion a laser of `g` leaves. */
  predicate BlastFrom(g: seq<Sprite>, s: Sprite, dtMs: nat) {
    exists s0 :: s0 in g && s0.LaserSprite? && s == Blast(s0.laser, dtMs)
  }

  /**
    What the walk over the whole group `g` leaves, stated over `g` itself:
    untouched meteors, clear lasers and live explosions survive as their own
    update; every kept sprite is the own update of a sprite of `g`, and every
    explosion born is that of a laser of `g`.
   */
  lemma WalkOutcome(g: seq<Sprite>, born: seq<Sprite>, pass: Pass, kept: seq<Sprite>, dtMs: nat, now: int, env: Env)
    requires pass == UpdateFrom(Wrap(g), 0, born, dtMs, now, env) && kept == Compact(pass.group)
    ensures forall m :: MeteorSprite(m) in g && Meteor.Step(m, dtMs, now).Some?
                        && !Touched(g, m, dtMs, env.laserHits) && !Touched(g, Meteor.Step(m, dtMs, now).value, dtMs, env.laserHits) ==>
              MeteorSprite(Meteor.Step(m, dtMs, now).value) in kept
    ensures forall l :: LaserSprite(l) in g && 0.0 <= Laser.Advance(l, dtMs).rect.Bottom()
                        && ClearOfMeteors(g, Laser.Advance(l, dtMs), dtMs, now, env.laserHits) ==>
              LaserSprite(Laser.Advance(l, dtMs)) in kept
    ensures forall e :: ExplosionSprite(e) in g && Explosion.Step(e, dtMs).Some? ==>
              ExplosionSprite(Explosion.Step(e, dtMs).value) in kept
    ensures forall s :: s in kept ==> UpdatedFrom(g, s, dtMs, now)
    ensures forall k :: |born| <= k < |pass.born| ==> BlastFrom(g, pass.born[k], dtMs)
  {
    KeptMeteors(g, born, pass, kept, dtMs, now, env);
    KeptLasers(g, born, pass, kept, dtMs, now, env);
    KeptExplosions(g, born, pass, kept, dtMs, now, env);
    KeptAreUpdates(g, born, pass, kept, dtMs, now, env);
    BornAreBlasts(g, born, pass, dtMs, now, env);
  }

  lemma KeptMeteors(g: seq<Sprite>, born: seq<Sprite>, pass: Pass, kept: seq<Sprite>, dtMs: nat, now: int, env: Env)
    requires pass == UpdateFrom(Wrap(g), 0, born, dtMs, now, env) && kept == Compact(pass.group)
    ensures forall m :: MeteorSprite(m) in g && Meteor.Step(m, dtMs, now).Some?
                        && !Touched(g, m, dtMs, env.laserHits) && !Touched(g, Meteor.Step(m, dtMs, now).value, dtMs, env.laserHits) ==>
              MeteorSprite(Meteor.Step(m, dtMs, now).value) in kept
  {
    var group := Wrap(g);
    WalkKeepsUntouched(group, 0, born, dtMs, now, env);
    forall m | MeteorSprite(m) in g && Meteor.Step(m, dtMs, now).Some?
               && !Touched(g, m, dtMs, env.laserHits) && !Touched(g, Meteor.Step(m, dtMs, now).value, dtMs, env.laserHits)
      ensures MeteorSprite(Meteor.Step(m, dtMs, now).value) in kept
    {
      var j :| 0 <= j < |g| && g[j] == MeteorSprite(m);
      var moved := Meteor.Step(m, dtMs, now).value;
      TouchedInGroup(g, m, dtMs, env.laserHits);
      TouchedInGroup(g, moved, dtMs, env.laserHits);
      assert pass.group[j] == Some(MeteorSprite(moved));
    }
  }

  lemma KeptLasers(g: seq<Sprite>, born: seq<Sprite>, pass: Pass, kept: seq<Sprite>, dtMs: nat, now: int, env: Env)
    requires pass == UpdateFrom(Wrap(g), 0, born, dtMs, now, env) && kept == Compact(pass.group)
    ensures forall l :: LaserSprite(l) in g && 0.0 <= Laser.Advance(l, dtMs).rect.Bottom()
                        && ClearOfMeteors(g, Laser.Advance(l, dtMs), dtMs, now, env.laserHits) ==>
              LaserSprite(Laser.Advance(l, dtMs)) in kept
  {
    var group := Wrap(g);
    WalkKeepsClearLaser(group, 0, born, dtMs, now, env);
    forall l | LaserSprite(l) in g && 0.0 <= Laser.Advance(l, dtMs).rect.Bottom()
               && ClearOfMeteors(g, Laser.Advance(l, dtMs), dtMs, now, env.laserHits)
      ensures LaserSprite(Laser.Advance(l, dtMs)) in kept
    {
      var j :| 0 <= j < |g| && g[j] == LaserSprite(l);
      assert Clear(group, 0, Laser.Advance(l, dtMs), dtMs, now, env.laserHits) by {
        forall k | 0 <= k < |group| && group[k].Some? && group[k].value.MeteorSprite?
          ensures !env.laserHits(Laser.Advance(l, dtMs), group[k].value.meteor)
        {
          assert group[k].value in g;
        }
      }
      assert pass.group[j] == Some(LaserSprite(Laser.Advance(l, dtMs)));
    }
  }

  lemma KeptExplosions(g: seq<Sprite>, born: seq<Sprite>, pass: Pass, kept: seq<Sprite>, dtMs: nat, now: int, env: Env)
    requires pass == UpdateFrom(Wrap(g), 0, born, dtMs, now, env) && kept == Compact(pass.group)
    ensures forall e :: ExplosionSprite(e) in g && Explosion.Step(e, dtMs).Some? ==>
              ExplosionSprite(Explosion.Step(e, dtMs).value) in kept
  {
    forall e | ExplosionSprite(e) in g && Explosion.Step(e, dtMs).Some?
      ensures ExplosionSprite(Explosion.Step(e, dtMs).value) in kept
    {
      var j :| 0 <= j < |g| && g[j] == ExplosionSprite(e);
      assert pass.group[j] == Own(g[j], dtMs, now);
    }
  }

  lemma KeptAreUpdates(g: seq<Sprite>, born: seq<Sprite>, pass: Pass, kept: seq<Sprite>, dtMs: nat, now: int, env: Env)
    requires pass == UpdateFrom(Wrap(g), 0, born, dtMs, now, env) && kept == Compact(pass.group)
    ensures forall s :: s in kept ==> UpdatedFrom(g, s, dtMs, now)
  {
    var group := Wrap(g);
    forall s | s in kept
      ensures UpdatedFrom(g, s, dtMs, now)
    {
      var j :| 0 <= j < |pass.group| && pass.group[j] == Some(s);
      assert group[j] == Some(g[j]);
      assert g[j] in g;
    }
  }

  lemma BornAreBlasts(g: seq<Sprite>, born: seq<Sprite>, pass: Pass, dtMs: nat, now: int, env: Env)
    requires pass == UpdateFrom(Wrap(g), 0, born, dtMs, now, env)
    ensures forall k :: |born| <= k < |pass.born| ==> BlastFrom(g, pass.born[k], dtMs)
  {
    var group := Wrap(g);
    WalkBlastsComeFromLasers(group, 0, born, dtMs, now, env);
    forall k | |born| <= k < |pass.born|
      ensures BlastFrom(g, pass.born[k], dtMs)
    {
      assert BlastOfRemovedLaser(group, 0, pass, pass.born[k], dtMs);
      var j :| 0 <= j < |group| && group[j].Some? && group[j].value.LaserSprite? && pass.group[j].None?
               && pass.born[k] == Blast(group[j].value.laser, dtMs);
      assert g[j] in g;
    }
  }

  /** A laser of the group that touches a meteor is a laser of `g` that touches it. */
  lemma TouchedInGroup(g: seq<Sprite>, m: Meteor.Meteor, dtMs: nat, hits: (Laser.Laser, Meteor.Meteor) -> bool)
    ensures LaserTouches(Wrap(g), 0, m, dtMs, hits) ==> Touched(g, m, dtMs, hits)
  {
    if LaserTouches(Wrap(g), 0, m, dtMs, hits) {
      var k :| 0 <= k < |g| && Wrap(g)[k].Some? && Wrap(g)[k].value.LaserSprite? && hits(Laser.Advance(Wrap(g)[k].value.laser, dtMs), m);
      assert g[k] in g;
    }
  }

  /**
    `all_sprites.update(delta_time)` of one frame (code/main.py:199), run on
    the group after the events, the ship's new laser being the first sprite
    born: every entry left is the own update of the sprite that was there,
    and the ship's laser heads the list of sprites born.
   */
  function FramePass(w: World, f: Frame, env: Env): (r: Pass)
    ensures var g := HandleEvents(w.running, w.sprites, f.events, f.now).sprites;
            && |r.group| == |g|
            && forall j :: 0 <= j < |g| && r.group[j].Some? ==> r.group[j] == Own(g[j], f.dtMs, f.now)
    ensures var ship := Player.Update(w.player, f.keys, f.fire, f.dtMs, f.now, env.laserWidth, env.laserHeight);
            ship.laser.Some? ==> |r.born| > 0 && r.born[0] == LaserSprite(ship.laser.value)
  {
    var handled := HandleEvents(w.running, w.sprites, f.events, f.now);
    var ship := Player.Update(w.player, f.keys, f.fire, f.dtMs, f.now, env.laserWidth, env.laserHeight);
    var born := if ship.laser.Some? then [LaserSprite(ship.laser.value)] else [];
    var r := UpdateFrom(Wrap(handled.sprites), 0, born, f.dtMs, f.now, env);
    assert born == r.born[..|born|];
    r
  }

  /**
    One pass of `while running` (code/main.py:189-201). The game is over
    after the frame exactly when it was over before, a quit event came, or
    the ship touches a meteor that is still in the group after the update;
    no meteor whose lifetime has run out and no explosion past its last
    frame survives the frame. What the group holds after the frame is the
    subject of `StepSprites`.
   */
  function Step(w: World, f: Frame, env: Env): (r: World)
    ensures r.running <==>
              && w.running && Quit !in f.events
              && forall s :: s in r.sprites && s.MeteorSprite? ==> !env.playerHits(r.player, s.meteor)
    ensures forall s :: s in r.sprites && s.MeteorSprite? ==> !Meteor.Expired(s.meteor, f.now)
    ensures forall s :: s in r.sprites && s.ExplosionSprite? ==> s.explosion.Showing()
    ensures AllMeteorsValid(w.sprites) ==> AllMeteorsValid(r.sprites)
    ensures r.player == Player.Update(w.player, f.keys, f.fire, f.dtMs, f.now, env.laserWidth, env.laserHeight).player
  {
    var handled := HandleEvents(w.running, w.sprites, f.events, f.now);
    var ship := Player.Update(w.player, f.keys, f.fire, f.dtMs, f.now, env.laserWidth, env.laserHeight);
    var born := if ship.laser.Some? then [LaserSprite(ship.laser.value)] else [];
    var group := Wrap(handled.sprites);
    GroupValid(w.sprites, handled.sprites, group);
    var pass := FramePass(w, f, env);
    var kept := Compact(pass.group);
    FrameFacts(pass, kept, born, f.now);
    World(handled.running && !ShipHit(ship.player, kept, env.playerHits), ship.player, kept + pass.born)
  }

  /**
    What the group holds after one frame. With `g` the group after the
    events (code/main.py:190-197): a meteor of `g` that no laser touches and
    a laser clear of every meteor survive as their own update, as does a
    live explosion; the ship's new laser joins the group (code/main.py:49),
    to be moved first in the next frame; and nothing else appears but the
    own updates of sprites of `g` and the explosions of its lasers
    (code/main.py:72-81, 104-111, 123-129).
   */
  lemma StepSprites(w: World, f: Frame, env: Env)
    ensures var r := Step(w, f, env);
            var ship := Player.Update(w.player, f.keys, f.fire, f.dtMs, f.now, env.laserWidth, env.laserHeight);
            ship.laser.Some? ==> LaserSprite(ship.laser.value) in r.sprites
    ensures var r := Step(w, f, env);
            var g := HandleEvents(w.running, w.sprites, f.events, f.now).sprites;
            forall m :: MeteorSprite(m) in g && Meteor.Step(m, f.dtMs, f.now).Some?
                        && !Touched(g, m, f.dtMs, env.laserHits)
                        && !Touched(g, Meteor.Step(m, f.dtMs, f.now).value, f.dtMs, env.laserHits) ==>
              MeteorSprite(Meteor.Step(m, f.dtMs, f.now).value) in r.sprites
    ensures var r := Step(w, f, env);
            var g := HandleEvents(w.running, w.sprites, f.events, f.now).sprites;
            forall l :: LaserSprite(l) in g && 0.0 <= Laser.Advance(l, f.dtMs).rect.Bottom()
                        && ClearOfMeteors(g, Laser.Advance(l, f.dtMs), f.dtMs, f.now, env.laserHits) ==>
              LaserSprite(Laser.Advance(l, f.dtMs)) in r.sprites
    ensures forall e :: ExplosionSprite(e) in w.sprites && Explosion.Step(e, f.dtMs).Some? ==>
              ExplosionSprite(Explosion.Step(e, f.dtMs).value) in Step(w, f, env).sprites
    ensures var r := Step(w, f, env);
            var g := HandleEvents(w.running, w.sprites, f.events, f.now).sprites;
            var ship := Player.Update(w.player, f.keys, f.fire, f.dtMs, f.now, env.laserWidth, env.laserHeight);
            forall s :: s in r.sprites ==>
              || (ship.laser.Some? && s == LaserSprite(ship.laser.value))
              || UpdatedFrom(g, s, f.dtMs, f.now)
              || BlastFrom(g, s, f.dtMs)
  {
    var handled := HandleEvents(w.running, w.sprites, f.events, f.now);
    var ship := Player.Update(w.player, f.keys, f.fire, f.dtMs, f.now, env.laserWidth, env.laserHeight);
    var born := if ship.laser.Some? then [LaserSprite(ship.laser.value)] else [];
    var pass := UpdateFrom(Wrap(handled.sprites), 0, born, f.dtMs, f.now, env);
    var kept := Compact(pass.group);
    assert Step(w, f, env).sprites == kept + pass.born;
    WalkOutcome(handled.sprites, born, pass, kept, f.dtMs, f.now, env);
    SpritesAfter(handled.sprites, w.sprites, born, pass, kept);
  }

  /**
    The order of the group after one frame: the sprites the update kept,
    each once and in the order they held in the group, then the sprites
    born during the update in the order they were born, the ship's new
    laser first (code/main.py:49, 77, 199). The order matters to the next
    frame: of two lasers touching one meteor, only the earlier removes it
    and leaves the explosion (code/main.py:75-77).
   */
  lemma StepOrder(w: World, f: Frame, env: Env)
    ensures var r := Step(w, f, env);
            var pass := FramePass(w, f, env);
            && |r.sprites| == Live(pass.group) + |pass.born|
            && (forall j :: 0 <= j < |pass.group| && pass.group[j].Some? ==>
                  r.sprites[Live(pass.group[..j])] == pass.group[j].value)
            && (forall k :: 0 <= k < |pass.born| ==> r.sprites[Live(pass.group) + k] == pass.born[k])
  {
    var pass := FramePass(w, f, env);
    var kept := Compact(pass.group);
    assert Step(w, f, env).sprites == kept + pass.born;
  }

  /**
    A meteor spawned by a timer event of the frame is already in the group
    when the group is updated (code/main.py:195-199): it cannot have run
    out of time, and unless a laser touches it, it ends the frame in the
    group having taken its first step.
   */
  lemma SpawnedMeteorJoins(w: World, f: Frame, env: Env, k: nat)
    requires k < |f.events| && f.events[k].MeteorTimer?
    ensures Meteor.Step(Spawned(f.events[k], f.now), f.dtMs, f.now).Some?
    ensures var g := HandleEvents(w.running, w.sprites, f.events, f.now).sprites;
            var m := Spawned(f.events[k], f.now);
            var moved := Meteor.Step(m, f.dtMs, f.now).value;
            !Touched(g, m, f.dtMs, env.laserHits) && !Touched(g, moved, f.dtMs, env.laserHits) ==>
              MeteorSprite(moved) in Step(w, f, env).sprites
  {
    StepSprites(w, f, env);
  }

  /**
    Where the sprites after the frame come from: the kept ones, the ship's
    laser, which starts the born list, and the explosions born after it.
   */
  lemma SpritesAfter(g: seq<Sprite>, before: seq<Sprite>, born: seq<Sprite>, pass: Pass, kept: seq<Sprite>)
    requires |born| <= |pass.born| && pass.born[..|born|] == born
    requires |before| <= |g| && g[..|before|] == before
    ensures forall s :: s in born ==> s in kept + pass.born
    ensures forall s :: s in before ==> s in g
    ensures forall s :: s in kept + pass.born ==>
              s in kept || s in born || exists k :: |born| <= k < |pass.born| && pass.born[k] == s
  {
    forall s | s in born ensures s in kept + pass.born {
      var k :| 0 <= k < |born| && born[k] == s;
      assert pass.born[..|born|][k] == s;
      assert (kept + pass.born)[|kept| + k] == s;
    }
    forall s | s in before ensures s in g {
      var k :| 0 <= k < |before| && before[k] == s;
      assert g[..|before|][k] == s;
    }
    forall k | 0 <= k < |born|
      ensures pass.born[k] == born[k]
    {
      assert pass.born[..|born|][k] == pass.born[k];
    }
  }


  /** The group the walk starts from holds valid meteors if the world did: the new ones are valid by construction. */
  lemma GroupValid(before: seq<Sprite>, after: seq<Sprite>, group: seq<Option<Sprite>>)
    requires |before| <= |after| && after[..|before|] == before
    requires forall k :: |before| <= k < |after| ==> after[k].MeteorSprite? ==> after[k].meteor.Valid()
    requires group == Wrap(after)
    ensures AllMeteorsValid(before) ==> MeteorsValid(group)
  {
    if AllMeteorsValid(before) {
      forall j | 0 <= j < |group| && group[j].Some? && group[j].value.MeteorSprite?
        ensures group[j].value.meteor.Valid()
      {
        if j < |before| {
          assert after[j] == after[..|before|][j];
          assert after[j] in before;
        }
      }
    }
  }

  /** What `Step` needs of the walk: the kept sprites are fresh, the born ones fresh explosions or the ship's laser. */
  lemma FrameFacts(pass: Pass, kept: seq<Sprite>, born: seq<Sprite>, now: int)
    requires kept == Compact(pass.group)
    requires forall j :: 0 <= j < |pass.group| && pass.group[j].Some? ==> Fresh(pass.group[j].value, now)
    requires |born| <= |pass.born| && pass.born[..|born|] == born
    requires forall s :: s in born ==> s.LaserSprite?
    requires forall k :: |born| <= k < |pass.born| ==> pass.born[k].ExplosionSprite? && pass.born[k].explosion.Showing()
    ensures forall s :: s in kept ==> Fresh(s, now)
    ensures forall s :: s in pass.born ==> !s.MeteorSprite? && (s.ExplosionSprite? ==> s.explosion.Showing())
  {
    forall s | s in pass.born
      ensures !s.MeteorSprite? && (s.ExplosionSprite? ==> s.explosion.Showing())
    {
      var k :| 0 <= k < |pass.born| && pass.born[k] == s;
      if k < |born| {
        assert pass.born[..|born|][k] == s;
        assert s in born;
      }
    }
  }

  /** A frame function after which the game runs only if it ran before and no quit event came. */
  ghost predicate QuitEnds(step: (World, Frame) -> World) {
    forall v, f :: step(v, f).running ==> v.running && Quit !in f.events
  }

  /**
    `while running` (code/main.py:188): frames are played with `step` until
    the game is over or the input ends. With a frame function that honours
    quit events, a game still running at the end saw no quit in any frame.
   */
  function Loop(w: World, frames: seq<Frame>, step: (World, Frame) -> World): (r: World)
    ensures r.running ==> w.running
    ensures QuitEnds(step) && r.running ==> forall k :: 0 <= k < |frames| ==> Quit !in frames[k].events
    decreases |frames|
  {
    if |frames| == 0 || !w.running then w
    else
      assert forall k :: 1 <= k < |frames| ==> frames[k] == frames[1..][k - 1];
      Loop(step(w, frames[0]), frames[1..], step)
  }

  /** The game's frame function. */
  function Frames(env: Env): (step: (World, Frame) -> World)
    ensures QuitEnds(step)
  {
    (v, f) => Step(v, f, env)
  }

  /** The game loop played with the game's own frames: a quit event in any frame ends the game. */
  function Run(w: World, frames: seq<Frame>, env: Env): (r: World)
    ensures r.running ==> w.running
    ensures (exists k :: 0 <= k < |frames| && Quit in frames[k].events) ==> !r.running
  {
    Loop(w, frames, Frames(env))
  }

  /**
    Game over is final: if the game is still running after some frames, it
    was running after every shorter prefix of them.
   */
  lemma {:induction false} LoopRunningOnlyFalls(w: World, frames: seq<Frame>, step: (World, Frame) -> World, k1: nat, k2: nat)
    requires k1 <= k2 <= |frames|
    ensures Loop(w, frames[..k2], step).running ==> Loop(w, frames[..k1], step).running
    decreases k1
  {
    if k1 == 0 {
      assert frames[..k1] == [];
    } else if w.running {
      assert frames[..k1][0] == frames[0] && frames[..k2][0] == frames[0];
      assert frames[..k1][1..] == frames[1..][..k1 - 1];
      assert frames[..k2][1..] == frames[1..][..k2 - 1];
      LoopRunningOnlyFalls(step(w, frames[0]), frames[1..], step, k1 - 1, k2 - 1);
    }
  }

  lemma RunningOnlyFalls(w: World, frames: seq<Frame>, env: Env, k1: nat, k2: nat)
    requires k1 <= k2 <= |frames|
    ensures Run(w, frames[..k2], env).running ==> Run(w, frames[..k1], env).running
  {
    LoopRunningOnlyFalls(w, frames, Frames(env), k1, k2);
  }
}
