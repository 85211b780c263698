/**
 * The frame state of the animation: the current frame, the play direction,
 * the "animating" flag, the edit/animate mode, the total-frames setting and
 * the selected motion.  The methods are the handlers that change these fields.
 */
module Frames {
  import opened Motion

  datatype Option<T> = None | Some(value: T)

  /** The frame `tick` renders for a stored frame `c`: `c` clamped into `[0, T]`. */
  function Clamp(c: int, T: int): (r: int)
    requires T >= 0
    ensures 0 <= r <= T
    ensures 0 <= c <= T ==> r == c
    ensures c > T ==> r == T
    ensures c < 0 ==> r == 0
  {
    if c > T then T else if c < 0 then 0 else c
  }

  class FrameControl {
    /** `curFrame`: the frame to render next; it may drift outside `[0, totFrames]`. */
    var curFrame: int
    /** `dir`: +1 when playing forward, -1 backward, 0 before any play button. */
    var dir: int
    /** `doAnimate`: whether the animation thread keeps ticking. */
    var doAnimate: bool
    /** `animateMode`: the applet is in animation mode rather than editing mode. */
    var animateMode: bool
    /** The value of the total-frames scrollbar. */
    var totFrames: int
    /** The index selected in the motion chooser: Linear, Rigid, Convex, final. */
    var motion: int

    /** The total-frames scrollbar ranges over `[10, 1000]`; `dir` is a unit step or 0; four motions exist. */
    ghost predicate Valid()
      reads this
    {
      10 <= totFrames <= 1000 && -1 <= dir <= 1 && 0 <= motion < 4
    }

    /** The state the applet starts in: frame 0 of 100, editing, with the motion chooser on "final". */
    constructor ()
      ensures Valid()
      ensures curFrame == 0 && dir == 0 && !doAnimate && !animateMode && totFrames == 100 && motion == 3
    {
      curFrame := 0;
      dir := 0;
      doAnimate := false;
      animateMode := false;
      totFrames := 100;
      motion := 3;
    }

    /** `stopAnimate`: stop the animation thread and step back by one `dir`. */
    method StopAnimate()
      requires Valid()
      modifies this
      ensures Valid()
      ensures !doAnimate && curFrame == old(curFrame) - dir
      ensures dir == old(dir) && animateMode == old(animateMode) && totFrames == old(totFrames) && motion == old(motion)
    {
      doAnimate := false;
      curFrame := curFrame - dir;
    }

    /** `animate`: the play-forward and play-backward buttons. */
    method Animate(forward: bool)
      requires Valid()
      modifies this
      ensures Valid()
      ensures dir == (if forward then 1 else -1) && doAnimate
      ensures curFrame == old(curFrame) && animateMode == old(animateMode) && totFrames == old(totFrames) && motion == old(motion)
    {
      if forward {
        dir := 1;
      } else {
        dir := -1;
      }
      doAnimate := true;
    }

    /**
     * `tick`: clamp the stored frame into `[0, totFrames]`, render that frame
     * with the selected motion, and stop the animation when clamping was needed.
     */
    method Tick() returns (step: Step)
      requires Valid()
      modifies this
      ensures Valid()
      ensures var r := Clamp(old(curFrame), totFrames);
        step == Render(motion, r, totFrames) &&
        (if r == old(curFrame) then curFrame == r && doAnimate == old(doAnimate)
         else curFrame == r - dir && !doAnimate)
      ensures dir == old(dir) && animateMode == old(animateMode) && totFrames == old(totFrames) && motion == old(motion)
    {
      var stop := false;
      if curFrame > totFrames {
        curFrame := totFrames;
        stop := true;
      }
      if curFrame < 0 {
        curFrame := 0;
        stop := true;
      }
      step := Render(motion, curFrame, totFrames);
      if stop {
        StopAnimate();
      }
    }

    /** `captureFrame`: the frame slider was moved to `value`; render that frame. */
    method CaptureFrame(value: int) returns (step: Step)
      requires Valid()
      modifies this
      ensures Valid()
      ensures var r := Clamp(value, totFrames);
        step == Render(motion, r, totFrames) &&
        (if r == value then curFrame == r && doAnimate == old(doAnimate)
         else curFrame == r - dir && !doAnimate)
      ensures dir == old(dir) && animateMode == old(animateMode) && totFrames == old(totFrames) && motion == old(motion)
    {
      curFrame := value;
      step := Tick();
    }

    /** The start button: rewind to frame 0. */
    method Start()
      requires Valid()
      modifies this
      ensures Valid()
      ensures curFrame == 0
      ensures dir == old(dir) && doAnimate == old(doAnimate) && animateMode == old(animateMode) && totFrames == old(totFrames) && motion == old(motion)
    {
      curFrame := 0;
    }

    /** The finish button: jump to the last frame. */
    method Finish()
      requires Valid()
      modifies this
      ensures Valid()
      ensures curFrame == totFrames
      ensures dir == old(dir) && doAnimate == old(doAnimate) && animateMode == old(animateMode) && totFrames == old(totFrames) && motion == old(motion)
    {
      curFrame := totFrames;
    }

    /** The pause button toggles the animating flag and nothing else. */
    method Pause()
      requires Valid()
      modifies this
      ensures Valid()
      ensures doAnimate == !old(doAnimate)
      ensures curFrame == old(curFrame) && dir == old(dir) && animateMode == old(animateMode) && totFrames == old(totFrames) && motion == old(motion)
    {
      doAnimate := !doAnimate;
    }

    /** The total-frames scrollbar moved to `value`: a stored frame beyond it is pulled back to it. */
    method SetTotalFrames(value: int)
      requires Valid() && 10 <= value <= 1000
      modifies this
      ensures Valid()
      ensures totFrames == value
      ensures curFrame == if old(curFrame) > value then value else old(curFrame)
      ensures dir == old(dir) && doAnimate == old(doAnimate) && animateMode == old(animateMode) && motion == old(motion)
    {
      totFrames := value;
      if curFrame > totFrames {
        curFrame := totFrames;
      }
    }

    /** `changeMode`, leaving out the drawing and the precomputation: toggle the mode and stop. */
    method ChangeMode()
      requires Valid()
      modifies this
      ensures Valid()
      ensures animateMode == !old(animateMode) && !doAnimate && curFrame == old(curFrame) - dir
      ensures dir == old(dir) && totFrames == old(totFrames) && motion == old(motion)
    {
      animateMode := !animateMode;
      StopAnimate();
    }

    /**
     * One round of the animation thread, where `d` is what the timer thread
     * accumulated meanwhile: tick if animating, then advance by `d` if still
     * animating.
     */
    method Advance(d: int) returns (step: Option<Step>)
      requires Valid()
      modifies this
      ensures Valid()
      ensures !old(doAnimate) ==> step == None && curFrame == old(curFrame) && !doAnimate
      ensures old(doAnimate) ==>
        var r := Clamp(old(curFrame), totFrames);
        step == Some(Render(motion, r, totFrames)) && InPhase(step.value) &&
        (if r == old(curFrame) then doAnimate && curFrame == r + d else !doAnimate && curFrame == r - dir)
      ensures dir == old(dir) && animateMode == old(animateMode) && totFrames == old(totFrames) && motion == old(motion)
    {
      step := None;
      if doAnimate {
        var s := Tick();
        RenderInPhase(motion, Clamp(old(curFrame), totFrames), totFrames);
        step := Some(s);
      }
      if doAnimate {
        curFrame := curFrame + d;
      }
    }
  }

  /**
   * Each round of a forward play advances one frame until the stored frame
   * passes `totFrames`; the next tick then renders `totFrames` and stops with
   * the stored frame one before it.
   */
  method PlayForward(fc: FrameControl) returns (rendered: seq<Step>)
    requires fc.Valid() && 0 <= fc.curFrame <= fc.totFrames
    modifies fc
    ensures fc.Valid() && !fc.doAnimate && fc.curFrame == fc.totFrames - 1
    ensures |rendered| == old(fc.totFrames) - old(fc.curFrame) + 2
    ensures forall k :: 0 <= k < |rendered| - 1 ==> rendered[k] == Render(fc.motion, old(fc.curFrame) + k, fc.totFrames)
    ensures rendered[|rendered| - 1] == Render(fc.motion, fc.totFrames, fc.totFrames)
  {
    fc.Animate(true);
    rendered := [];
    var c0 := fc.curFrame;
    while fc.doAnimate
      invariant fc.Valid() && fc.dir == 1 && fc.totFrames == old(fc.totFrames) && fc.motion == old(fc.motion)
      invariant fc.doAnimate ==> fc.curFrame == c0 + |rendered| && fc.curFrame <= fc.totFrames + 1
      invariant !fc.doAnimate ==>
        fc.curFrame == fc.totFrames - 1 && |rendered| == fc.totFrames - c0 + 2 &&
        rendered[|rendered| - 1] == Render(fc.motion, fc.totFrames, fc.totFrames)
      invariant forall k :: 0 <= k < |rendered| && c0 + k <= fc.totFrames ==>
        rendered[k] == Render(fc.motion, c0 + k, fc.totFrames)
      decreases fc.totFrames + 2 - |rendered|
    {
      var s := fc.Advance(1);
      rendered := rendered + [s.value];
    }
  }
}
