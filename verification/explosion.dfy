/**
  `AnimatedExplosion` (code/main.py:114-129): a one-shot animation whose
  fractional frame index advances at 35 frames per second and which removes
  itself once the index reaches the number of frames.
 */
module Explosion {
  import opened Wrappers
  import opened Geometry

  /** A loaded image, told apart by its position in the list it was loaded into. */
  datatype Surface = Surface(id: nat)

  type NonNegReal = r: real | 0.0 <= r

  /** Frames per second of the animation (code/main.py:124). */
  const Rate: real := 35.0

  /**
    The 21 frames `explosion/0.png` .. `explosion/20.png` (code/main.py:165):
    distinct images, so the frame shown tells how far the animation is.
   */
  function GameFrames(): (frames: seq<Surface>)
    ensures |frames| == 21
    ensures forall i, j :: 0 <= i < j < |frames| ==> frames[i] != frames[j]
  {
    seq(21, i requires 0 <= i => Surface(i))
  }

  datatype Explosion = Explosion(frames: seq<Surface>, frameIndex: NonNegReal, image: Surface, center: Vec) {

    /** The explosion shows the frame its fractional index points at. */
    predicate Showing() {
      frameIndex < |frames| as real && image == frames[frameIndex.Floor]
    }
  }

  /**
    The constructor (code/main.py:115-121): index 0 and the first frame. It
    reads `frames[0]`, so the frame list must not be empty. The integer
    rounding of `get_rect` is not modelled.
   */
  function New(frames: seq<Surface>, pos: Vec): (r: Explosion)
    requires |frames| > 0
    ensures r.Showing() && r.frameIndex == 0.0
    ensures r.frames == frames && r.center == pos
  {
    Explosion(frames, 0.0, frames[0], pos)
  }

  /**
    One `update` (code/main.py:123-129). `None` means the sprite killed
    itself. The frame lookup is only reached while the index is below the
    number of frames, so it is always in bounds.
   */
  function Step(e: Explosion, dtMs: nat): (r: Option<Explosion>)
    ensures r.None? <==> e.frameIndex + Rate * Seconds(dtMs) >= |e.frames| as real
    ensures r.Some? ==> r.value.Showing()
    ensures r.Some? ==> r.value.frameIndex >= e.frameIndex
    ensures r.Some? ==> r.value.frameIndex - e.frameIndex == Rate * dtMs as real / 1000.0
    ensures r.Some? ==> r.value.frames == e.frames && r.value.center == e.center
  {
    var index := e.frameIndex + Rate * Seconds(dtMs);
    if index >= |e.frames| as real then None
    else Some(e.(frameIndex := index, image := e.frames[index.Floor]))
  }

  /** Total milliseconds of a sequence of frame times. */
  function Sum(dts: seq<nat>): nat {
    if |dts| == 0 then 0 else dts[0] + Sum(dts[1..])
  }

  /** Updates the explosion once per frame time until it removes itself. */
  function Run(e: Explosion, dts: seq<nat>): Option<Explosion>
    decreases |dts|
  {
    if |dts| == 0 then Some(e)
    else match Step(e, dts[0])
      case None => None
      case Some(e') => Run(e', dts[1..])
  }

  /**
    Because the index only grows, an explosion that is showing a frame is
    still alive after a run of frames exactly when its index plus 35 per
    second of elapsed time is still below the number of frames, and then
    that is its index.
   */
  lemma {:induction false} RunLifetime(e: Explosion, dts: seq<nat>)
    requires e.Showing()
    ensures Run(e, dts).Some? <==> e.frameIndex + Rate * Seconds(Sum(dts)) < |e.frames| as real
    ensures Run(e, dts).Some? ==> Run(e, dts).value.frameIndex == e.frameIndex + Rate * Seconds(Sum(dts))
    ensures Run(e, dts).Some? ==> Run(e, dts).value.Showing()
    decreases |dts|
  {
    if |dts| > 0 {
      assert Seconds(Sum(dts)) == Seconds(dts[0]) + Seconds(Sum(dts[1..]));
      match Step(e, dts[0])
      case None =>
      case Some(e') =>
        RunLifetime(e', dts[1..]);
    }
  }

  /** With the game's 21 frames an explosion lasts exactly 600 ms of frame time. */
  lemma GameExplosionLasts600ms(pos: Vec, dts: seq<nat>)
    ensures Run(New(GameFrames(), pos), dts).Some? <==> Sum(dts) < 600
  {
    RunLifetime(New(GameFrames(), pos), dts);
  }
}
