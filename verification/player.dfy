/**
  `Player` (code/main.py:7-55): the ship. Each frame it reads the held
  W/A/S/D keys into a direction, pushes its rectangle back inside the window
  if an edge is outside, moves, fires a laser on a fresh SPACE press when the
  cooldown allows it, and finally runs the cooldown timer.

  The order of code/main.py is kept: the window clamp runs on the rectangle
  as it was at the start of the frame and the move comes after it, so the
  rectangle is inside the window right after the clamp, not at the end of
  the frame (see `UpdateCanLeaveWindow`).
 */
module Player {
  import opened Wrappers
  import opened Geometry
  import Laser

  /** Ship speed in units per second (code/main.py:13). */
  const Speed: real := 300.0

  /** Milliseconds between two shots (code/main.py:17). */
  const Cooldown: int := 400

  /**
    A component of `Vector2((1, 1)).normalize()`, the double that Python
    prints as 0.7071067811865475; 1/sqrt(2) itself is not a real Dafny can
    write down.
   */
  const Diagonal: real := 0.7071067811865475

  /** The held state of the four movement keys. */
  datatype Keys = Keys(w: bool, a: bool, s: bool, d: bool)

  type Axis = x: int | -1 <= x <= 1

  /** A direction read from the keys: each component is -1, 0 or 1. */
  datatype Heading = Heading(x: Axis, y: Axis) {

    predicate IsZero() { x == 0 && y == 0 }

    predicate IsDiagonal() { x != 0 && y != 0 }

    function ToVec(): Vec { Vec(x as real, y as real) }
  }

  datatype Player = Player(rect: Rect, direction: Vec, canShoot: bool, laserShootTime: int)

  /** The constructor (code/main.py:8-17): centred in the window, free to shoot. */
  function New(width: real, height: real): (r: Player)
    ensures r.rect.Center() == Vec(WindowWidth / 2.0, WindowHeight / 2.0)
    ensures r.rect.width == width && r.rect.height == height
    ensures r.direction.IsZero() && r.canShoot && r.laserShootTime == 0
  {
    Player(RectAtCenter(Vec(WindowWidth / 2.0, WindowHeight / 2.0), width, height), Vec(0.0, 0.0), true, 0)
  }

  /** `int(keys[positive]) - int(keys[negative])` (code/main.py:28-29). */
  function AxisOf(positive: bool, negative: bool): (r: Axis)
    ensures r == 1 <==> positive && !negative
    ensures r == -1 <==> negative && !positive
    ensures r == 0 <==> positive == negative
  {
    (if positive then 1 else 0) - (if negative then 1 else 0)
  }

  /**
    D moves right and A left, S moves down and W up (y grows downward);
    opposite keys cancel.
   */
  function KeyHeading(keys: Keys): (h: Heading)
    ensures h.x == 1 <==> keys.d && !keys.a
    ensures h.x == -1 <==> keys.a && !keys.d
    ensures h.y == 1 <==> keys.s && !keys.w
    ensures h.y == -1 <==> keys.w && !keys.s
    ensures h.IsZero() <==> keys.d == keys.a && keys.s == keys.w
  {
    Heading(AxisOf(keys.d, keys.a), AxisOf(keys.s, keys.w))
  }

  /**
    `direction.normalize() if direction else direction` (code/main.py:43)
    for a key heading: a straight heading is already of length 1 and stays
    as it is, a diagonal one gets both components of size `Diagonal`.
   */
  function Normalize(h: Heading): (r: Vec)
    ensures h.IsZero() <==> r.IsZero()
    ensures !h.IsDiagonal() ==> r == h.ToVec()
    ensures (r.x < 0.0 <==> h.x < 0) && (r.x > 0.0 <==> h.x > 0)
    ensures (r.y < 0.0 <==> h.y < 0) && (r.y > 0.0 <==> h.y > 0)
    ensures !h.IsZero() ==> 0.9999999999999998 < r.x * r.x + r.y * r.y <= 1.0
  {
    if h.IsDiagonal() then Vec(h.x as real * Diagonal, h.y as real * Diagonal)
    else h.ToVec()
  }

  /** `is_collide_border` (code/main.py:30-31). */
  predicate CollidesBorder(r: Rect) {
    r.left < 0.0 || r.Right() > WindowWidth || r.top < 0.0 || r.Bottom() > WindowHeight
  }

  lemma CollidesBorderIsOutside(r: Rect)
    ensures CollidesBorder(r) <==> !r.InWindow()
  {
  }

  /**
    The four assignments of code/main.py:34-41, one after the other: each
    test reads the rectangle the previous assignment left.
   */
  function Clamp(r: Rect): (c: Rect)
    ensures c.width == r.width && c.height == r.height
    ensures r.FitsWindow() ==> c.InWindow()
    ensures r.InWindow() ==> c == r
  {
    var c1 := if r.left < 0.0 then r.(left := 0.0) else r;
    var c2 := if c1.Right() > WindowWidth then c1.WithRight(WindowWidth) else c1;
    var c3 := if c2.top < 0.0 then c2.(top := 0.0) else c2;
    if c3.Bottom() > WindowHeight then c3.WithBottom(WindowHeight) else c3
  }

  function Max(a: real, b: real): real { if a < b then b else a }

  function Min(a: real, b: real): real { if a < b then a else b }

  /**
    For a ship that fits in the window, the sequence of assignments places
    each coordinate at the nearest position that keeps the ship inside.
   */
  lemma ClampIsNearestInside(r: Rect)
    requires r.FitsWindow()
    ensures Clamp(r).left == Max(0.0, Min(r.left, WindowWidth - r.width))
    ensures Clamp(r).top == Max(0.0, Min(r.top, WindowHeight - r.height))
  {
  }

  /**
    The direction the ship moves by (code/main.py:28-43): the key heading,
    normalised only when no edge is outside the window. So the direction
    differs from the raw heading exactly for a diagonal heading with every
    edge inside; a diagonal at the border moves at the full speed on both
    axes.
   */
  function MoveDirection(rect: Rect, h: Heading): (r: Vec)
    ensures -1.0 <= r.x <= 1.0 && -1.0 <= r.y <= 1.0
    ensures (r.x < 0.0 <==> h.x < 0) && (r.x > 0.0 <==> h.x > 0)
    ensures (r.y < 0.0 <==> h.y < 0) && (r.y > 0.0 <==> h.y > 0)
    ensures r == h.ToVec() <==> CollidesBorder(rect) || !h.IsDiagonal()
    ensures !CollidesBorder(rect) ==> r == Normalize(h)
  {
    if CollidesBorder(rect) then h.ToVec() else Normalize(h)
  }

  /**
    `laser_timer` (code/main.py:19-24): a blocked gun is freed once
    `now - laser_shoot_time >= 400`; nothing else changes.
   */
  function LaserTimer(p: Player, now: int): (r: Player)
    ensures r.canShoot <==> p.canShoot || now - p.laserShootTime >= Cooldown
    ensures r == p.(canShoot := r.canShoot)
  {
    if !p.canShoot && now - p.laserShootTime >= Cooldown then p.(canShoot := true) else p
  }

  /** What one player update leaves behind: the ship and the laser it fired, if any. */
  datatype Step = Step(player: Player, laser: Option<Laser.Laser>)

  /** A displacement of at most 1 times `k` per axis. */
  lemma ScaledUnitBound(v: Vec, k: real)
    requires -1.0 <= v.x <= 1.0 && -1.0 <= v.y <= 1.0 && 0.0 <= k
    ensures -k <= v.Scale(k).x <= k && -k <= v.Scale(k).y <= k
  {
    assert (1.0 - v.x) * k >= 0.0 && (1.0 + v.x) * k >= 0.0;
    assert (1.0 - v.y) * k >= 0.0 && (1.0 + v.y) * k >= 0.0;
  }

  /**
    The movement half of `update` (code/main.py:27-45): the clamp, if an
    edge is outside, on the rectangle as it was, then the move by the
    direction times 300 times dt. A ship that fits ends within one step of
    the window; with no key held it is only clamped.
   */
  function Steer(p: Player, keys: Keys, dtMs: nat): (r: Player)
    ensures r == p.(rect := r.rect, direction := r.direction)
    ensures r.direction == MoveDirection(p.rect, KeyHeading(keys))
    ensures r.rect == Clamp(p.rect).Shift(r.direction.Scale(Speed * Seconds(dtMs)))
    ensures r.rect.width == p.rect.width && r.rect.height == p.rect.height
    ensures p.rect.FitsWindow() ==> r.rect.NearWindow(Speed * Seconds(dtMs))
    ensures KeyHeading(keys).IsZero() ==> r.rect == Clamp(p.rect)
  {
    var rect := if CollidesBorder(p.rect) then Clamp(p.rect) else p.rect;
    var direction := MoveDirection(p.rect, KeyHeading(keys));
    var step := Speed * Seconds(dtMs);
    ScaledUnitBound(direction, step);
    p.(rect := rect.Shift(direction.Scale(step)), direction := direction)
  }

  /**
    The firing half of `update` (code/main.py:47-55): a fresh SPACE press
    with a free gun fires a laser from the ship's midtop, blocks the gun
    and stamps `now`; then the cooldown timer runs.
   */
  function Shoot(p: Player, fire: bool, now: int, laserWidth: real, laserHeight: real): (r: Step)
    ensures r.player.rect == p.rect && r.player.direction == p.direction
    ensures r.laser.Some? <==> fire && p.canShoot
    ensures r.laser.Some? ==>
              && r.laser.value == Laser.New(p.rect.MidTop(), laserWidth, laserHeight)
              && r.player.laserShootTime == now && !r.player.canShoot
    ensures r.laser.None? ==>
              && r.player.laserShootTime == p.laserShootTime
              && (r.player.canShoot <==> p.canShoot || now - p.laserShootTime >= Cooldown)
  {
    if fire && p.canShoot then
      Step(LaserTimer(p.(canShoot := false, laserShootTime := now), now), Some(Laser.New(p.rect.MidTop(), laserWidth, laserHeight)))
    else
      Step(LaserTimer(p, now), None)
  }

  /**
    One `update` (code/main.py:26-55) at tick `now`, with `fire` the
    just-pressed state of SPACE and `laserWidth` x `laserHeight` the laser
    image size. Every `get_ticks()` of the frame reads `now`.
   */
  function Update(p: Player, keys: Keys, fire: bool, dtMs: nat, now: int, laserWidth: real, laserHeight: real): (r: Step)
    ensures r.laser.Some? <==> fire && p.canShoot
    ensures r.laser.Some? ==>
              && r.laser.value == Laser.New(r.player.rect.MidTop(), laserWidth, laserHeight)
              && r.player.laserShootTime == now && !r.player.canShoot
    ensures r.laser.None? ==>
              && r.player.laserShootTime == p.laserShootTime
              && (r.player.canShoot <==> p.canShoot || now - p.laserShootTime >= Cooldown)
    ensures r.player.direction == MoveDirection(p.rect, KeyHeading(keys))
    ensures r.player.rect == Clamp(p.rect).Shift(r.player.direction.Scale(Speed * Seconds(dtMs)))
    ensures r.player.rect.width == p.rect.width && r.player.rect.height == p.rect.height
    ensures p.rect.FitsWindow() ==> r.player.rect.NearWindow(Speed * Seconds(dtMs))
    ensures KeyHeading(keys).IsZero() ==> r.player.rect == Clamp(p.rect)
  {
    Shoot(Steer(p, keys, dtMs), fire, now, laserWidth, laserHeight)
  }

  /**
    The window bound holds after the clamp but not at the end of the frame:
    a ship touching the left edge and steered left ends the frame 4.8 units
    outside the window.
   */
  lemma UpdateCanLeaveWindow()
    ensures
      var p := Player(Rect(0.0, 300.0, 100.0, 100.0), Vec(0.0, 0.0), true, 0);
      && p.rect.InWindow()
      && Update(p, Keys(false, true, false, false), false, 16, 1000, 4.0, 20.0).player.rect.left == -4.8
  {
    var p := Player(Rect(0.0, 300.0, 100.0, 100.0), Vec(0.0, 0.0), true, 0);
    var h := KeyHeading(Keys(false, true, false, false));
    assert h == Heading(-1, 0);
    assert !CollidesBorder(p.rect);
    assert MoveDirection(p.rect, h) == Vec(-1.0, 0.0);
    assert Seconds(16) == 0.016;
  }

  /**
    The cooldown is checked by the fire test before the timer runs: in the
    frame in which 400 ms have passed a shot is still refused, and it is
    the timer at the end of that frame that frees the gun.
   */
  lemma ShotWaitsForTimer(p: Player, keys: Keys, dtMs: nat, now: int, lw: real, lh: real)
    requires !p.canShoot && now - p.laserShootTime >= Cooldown
    ensures Update(p, keys, true, dtMs, now, lw, lh).laser.None?
    ensures Update(p, keys, true, dtMs, now, lw, lh).player.canShoot
  {
  }

  /** One frame of input to the ship. */
  datatype Input = Input(keys: Keys, fire: bool, dtMs: nat, now: int)

  /** The ticks at which the ship fires over a sequence of frames. */
  function ShotTimes(p: Player, ins: seq<Input>, lw: real, lh: real): seq<int>
    decreases |ins|
  {
    if |ins| == 0 then []
    else
      var r := Update(p, ins[0].keys, ins[0].fire, ins[0].dtMs, ins[0].now, lw, lh);
      (if r.laser.Some? then [ins[0].now] else []) + ShotTimes(r.player, ins[1..], lw, lh)
  }

  /** `get_ticks()` never goes backwards. */
  predicate ClockMonotone(ins: seq<Input>) {
    forall i, j :: 0 <= i <= j < |ins| ==> ins[i].now <= ins[j].now
  }

  /** Any two shots are at least the cooldown apart. */
  predicate SpacedByCooldown(times: seq<int>) {
    forall i, j :: 0 <= i < j < |times| ==> times[i] + Cooldown <= times[j]
  }

  /**
    The induction behind `ShotsAreSpaced`: `last` is the previous shot and
    `clock` the tick of the previous frame. While the gun is blocked its
    stamp is the last shot, and once it is free the last shot is at least
    the cooldown before `clock`.
   */
  lemma {:induction false} ShotsSpacedFrom(p: Player, ins: seq<Input>, lw: real, lh: real, last: Option<int>, clock: int)
    requires ClockMonotone(ins)
    requires |ins| > 0 ==> clock <= ins[0].now
    requires last.Some? ==>
               && p.laserShootTime == last.value
               && (p.canShoot ==> last.value + Cooldown <= clock)
    ensures SpacedByCooldown(ShotTimes(p, ins, lw, lh))
    ensures last.Some? ==> forall k :: 0 <= k < |ShotTimes(p, ins, lw, lh)| ==> last.value + Cooldown <= ShotTimes(p, ins, lw, lh)[k]
    decreases |ins|
  {
    if |ins| > 0 {
      var i := ins[0];
      var r := Update(p, i.keys, i.fire, i.dtMs, i.now, lw, lh);
      var rest := ins[1..];
      assert ClockMonotone(rest) by {
        forall a, b | 0 <= a <= b < |rest| ensures rest[a].now <= rest[b].now {
          assert rest[a] == ins[a + 1] && rest[b] == ins[b + 1];
        }
      }
      assert |rest| > 0 ==> i.now <= rest[0].now by {
        if |rest| > 0 { assert rest[0] == ins[1]; }
      }
      var tail := ShotTimes(r.player, rest, lw, lh);
      if r.laser.Some? {
        ShotsSpacedFrom(r.player, rest, lw, lh, Some(i.now), i.now);
        assert ShotTimes(p, ins, lw, lh) == [i.now] + tail;
      } else {
        ShotsSpacedFrom(r.player, rest, lw, lh, last, i.now);
        assert ShotTimes(p, ins, lw, lh) == tail;
      }
    }
  }

  /**
    Starting from a new ship, any two shots over any run of frames with a
    clock that does not go backwards are at least 400 ms apart.
   */
  lemma ShotsAreSpaced(width: real, height: real, ins: seq<Input>, lw: real, lh: real)
    requires ClockMonotone(ins)
    ensures SpacedByCooldown(ShotTimes(New(width, height), ins, lw, lh))
  {
    ShotsSpacedFrom(New(width, height), ins, lw, lh, None, if |ins| > 0 then ins[0].now else 0);
  }
}
