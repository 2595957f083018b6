/**
  `Meteor` (code/main.py:84-111) and the spawn position chosen by the main
  loop (code/main.py:194-197). A meteor falls along a random, downward
  biased direction at a random speed, spins at a random rate, and removes
  itself 2000 ms after it was created. The rotated image and the resized
  rectangle are not modelled: the meteor is kept as its centre, which the
  re-centring of code/main.py:109 leaves where the motion put it.
 */
module Meteor {
  import opened Wrappers
  import opened Geometry
  import Random

  /** Lifetime in milliseconds (code/main.py:92). */
  const Lifetime: int := 2000

  datatype Meteor = Meteor(
    center: Vec,
    direction: Vec,
    speed: int,
    angle: real,
    rotationSpeed: int,
    startTime: int)
  {
    /** The ranges the constructor draws from, which no update changes. */
    predicate Valid() {
      && -0.5 <= direction.x < 0.5 && direction.y == 1.0
      && 400 <= speed <= 500
      && 40 <= rotationSpeed <= 85
      && 0.0 <= angle
    }
  }

  /** Raw draws for the three random numbers of the constructor, in call order. */
  datatype Draws = Draws(direction: nat, speed: nat, rotation: nat)

  /** `x = randint(0, WINDOW_WIDTH)`, `y = randint(-100, 0)` (code/main.py:195-196). */
  function SpawnPosition(xDraw: nat, yDraw: nat): (r: Vec)
    ensures 0.0 <= r.x <= WindowWidth && -100.0 <= r.y <= 0.0
    ensures r.x.Floor as real == r.x && r.y.Floor as real == r.y
  {
    Vec(Random.RandInt(0, 1280, xDraw) as real, Random.RandInt(-100, 0, yDraw) as real)
  }

  /** The constructor (code/main.py:85-96), created at tick `now`. */
  function New(pos: Vec, now: int, draws: Draws): (r: Meteor)
    ensures r.Valid() && r.angle == 0.0
    ensures r.center == pos && r.startTime == now
  {
    Meteor(
      center := pos,
      direction := Vec(Random.Uniform(-0.5, 0.5, draws.direction), 1.0),
      speed := Random.RandInt(400, 500, draws.speed),
      angle := 0.0,
      rotationSpeed := Random.RandInt(40, 85, draws.rotation),
      startTime := now)
  }

  /**
    Python's float `x % 360`, which takes the sign of the divisor: the
    result is `x` minus the multiple of 360 at or below it.
   */
  function Mod360(x: real): (r: real)
    ensures 0.0 <= r < 360.0
    ensures 0.0 <= x < 360.0 ==> r == x
  {
    x - 360.0 * (x / 360.0).Floor as real
  }

  /** `Mod360` agrees with any other way of writing `x` as a multiple of 360 plus a remainder in `[0, 360)`. */
  lemma Mod360Unique(x: real, q: int, rem: real)
    requires 0.0 <= rem < 360.0 && x == 360.0 * q as real + rem
    ensures Mod360(x) == rem
  {
    assert x / 360.0 == q as real + rem / 360.0;
    assert (x / 360.0).Floor == q;
  }

  /**
    `meteor_timer` (code/main.py:98-102): true when the meteor kills itself,
    which is at the first tick at least `Lifetime` ms after its creation tick,
    so never at the creation tick itself.
   */
  function Expired(m: Meteor, now: int): (r: bool)
    ensures r <==> m.startTime + Lifetime <= now
    ensures r ==> m.startTime < now
  {
    now - m.startTime >= Lifetime
  }

  /**
    One `update` (code/main.py:104-111): spin by `(rotation_speed * dt) % 360`
    (only the increment is reduced, so the angle itself grows without
    bound), move by `direction * speed * dt`, then remove the meteor if its
    lifetime is over. `None` means it killed itself.
   */
  function Step(m: Meteor, dtMs: nat, now: int): (r: Option<Meteor>)
    ensures r.None? <==> Expired(m, now)
    ensures r.Some? ==>
              && 0.0 <= r.value.angle - m.angle < 360.0
              && r.value.angle == m.angle + Mod360(m.rotationSpeed as real * Seconds(dtMs))
              && r.value.center == m.center.Plus(m.direction.Scale(m.speed as real * Seconds(dtMs)))
              && r.value.(angle := m.angle, center := m.center) == m
    ensures m.Valid() && r.Some? ==> r.value.Valid()
  {
    var spun := m.angle + Mod360(m.rotationSpeed as real * Seconds(dtMs));
    var moved := m.center.Plus(m.direction.Scale(m.speed as real * Seconds(dtMs)));
    if Expired(m, now) then None else Some(m.(angle := spun, center := moved))
  }

  /** A valid meteor that survives a frame that took time has moved strictly down. */
  lemma StepFalls(m: Meteor, dtMs: nat, now: int)
    requires m.Valid() && dtMs > 0 && Step(m, dtMs, now).Some?
    ensures Step(m, dtMs, now).value.center.y >= m.center.y + 400.0 * Seconds(dtMs)
  {
    var dt := Seconds(dtMs);
    assert m.speed as real * dt >= 400.0 * dt;
  }

  /** One frame as the meteor sees it: its duration and the tick read by `meteor_timer`. */
  datatype Tick = Tick(dtMs: nat, now: int)

  /** Updates the meteor once per frame until it removes itself. */
  function Run(m: Meteor, ticks: seq<Tick>): Option<Meteor>
    decreases |ticks|
  {
    if |ticks| == 0 then Some(m)
    else match Step(m, ticks[0].dtMs, ticks[0].now)
      case None => None
      case Some(m') => Run(m', ticks[1..])
  }

  predicate ClockMonotone(ticks: seq<Tick>) {
    forall i, j :: 0 <= i <= j < |ticks| ==> ticks[i].now <= ticks[j].now
  }

  /**
    With a clock that does not go backwards, a meteor is still alive after
    a run of frames exactly when the last frame's tick is less than 2000 ms
    past its creation; it then keeps its creation tick and its ranges.
   */
  lemma {:induction false} RunLifetime(m: Meteor, ticks: seq<Tick>)
    requires ClockMonotone(ticks) && |ticks| > 0
    ensures Run(m, ticks).Some? <==> ticks[|ticks| - 1].now < m.startTime + Lifetime
    ensures Run(m, ticks).Some? ==> Run(m, ticks).value.startTime == m.startTime
    ensures m.Valid() && Run(m, ticks).Some? ==> Run(m, ticks).value.Valid()
    decreases |ticks|
  {
    var rest := ticks[1..];
    match Step(m, ticks[0].dtMs, ticks[0].now)
    case None =>
      assert ticks[0].now <= ticks[|ticks| - 1].now;
    case Some(m') =>
      if |rest| > 0 {
        assert ClockMonotone(rest) by {
          forall a, b | 0 <= a <= b < |rest| ensures rest[a].now <= rest[b].now {
            assert rest[a] == ticks[a + 1] && rest[b] == ticks[b + 1];
          }
        }
        RunLifetime(m', rest);
        assert rest[|rest| - 1] == ticks[|ticks| - 1];
      }
  }

  /**
    A meteor spawned at (640, -50) falling straight down at 450 units per
    second is at (640, 400) after one 1000 ms frame.
   */
  lemma OneSecondOfFall(now: int)
    ensures
      var m := Meteor(Vec(640.0, -50.0), Vec(0.0, 1.0), 450, 0.0, 40, now);
      Step(m, 1000, now + 1000) == Some(m.(center := Vec(640.0, 400.0), angle := 40.0))
  {
  }
}
