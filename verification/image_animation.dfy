/** `ImageLib.ImageAnimation`: the frames of a decoded animation played as
    one key-frame animation of the `Image` control's `Source` inside a
    storyboard that repeats forever, with a play state kept beside it.

    The storyboard itself is platform code; the model keeps its children
    and the log of commands sent to it. */
module ImageAnimation {
  import opened Base
  import opened ImagePackage
  import opened ImageControl

  /** `AnimationState`: its `Pause`, `Stop` and `Playing`. */
  datatype AnimationState = Paused | Stopped | Playing

  /** `ImageFrame`: a bitmap and how long it shows, in `TimeSpan` ticks. */
  datatype ImageFrame = ImageFrame(bitmap: Ref, delay: int)

  /** A discrete key frame: from `keyTime` on, the target shows `value`. */
  datatype KeyFrame = KeyFrame(keyTime: int, value: Ref)

  /** An `ObjectAnimationUsingKeyFrames` bound to a control's `Source`. */
  datatype KeyFrameAnimation = KeyFrameAnimation(target: Image, keyFrames: seq<KeyFrame>)

  /** What the class asks of the storyboard. */
  datatype Command = BeginStoryboard | ResumeStoryboard | PauseStoryboard | StopStoryboard | ClearChildren

  datatype Animation = Animation(state: AnimationState, children: seq<KeyFrameAnimation>, commands: seq<Command>)

  /** A new animation: stopped, with an empty storyboard. */
  function New(): (a: Animation)
    ensures a.state == Stopped && a.children == [] && a.commands == []
  {
    Animation(Stopped, [], [])
  }

  /** The state claims playing or paused only with something in the
      storyboard. */
  predicate Valid(a: Animation)
  {
    a.state != Stopped ==> |a.children| > 0
  }

  /** Every animation in the storyboard has frames to show. */
  predicate Animates(a: Animation)
  {
    forall i :: 0 <= i < |a.children| ==> |a.children[i].keyFrames| > 0
  }

  /** `Begin()`: unless already playing, begins the storyboard and plays if
      it has children, and otherwise settles in `Stop` (`Stopped` here). */
  function Begin(a: Animation): (r: Animation)
    ensures r.children == a.children
    ensures a.state == Playing ==> r == a
    ensures a.state != Playing && |a.children| > 0 ==>
      r.state == Playing && r.commands == a.commands + [BeginStoryboard]
    ensures a.state != Playing && |a.children| == 0 ==> r.state == Stopped && r.commands == a.commands
  {
    if a.state != Playing then
      if |a.children| > 0 then a.(state := Playing, commands := a.commands + [BeginStoryboard])
      else a.(state := Stopped)
    else a
  }

  /** `Resume()`: as `Begin`, resuming instead of beginning. */
  function Resume(a: Animation): (r: Animation)
    ensures r.children == a.children
    ensures a.state == Playing ==> r == a
    ensures a.state != Playing && |a.children| > 0 ==>
      r.state == Playing && r.commands == a.commands + [ResumeStoryboard]
    ensures a.state != Playing && |a.children| == 0 ==> r.state == Stopped && r.commands == a.commands
  {
    if a.state != Playing then
      if |a.children| > 0 then a.(state := Playing, commands := a.commands + [ResumeStoryboard])
      else a.(state := Stopped)
    else a
  }

  /** `Pause()`: unless already paused, pauses a storyboard with children,
      and otherwise settles in `Stop` (`Stopped` here). */
  function Pause(a: Animation): (r: Animation)
    ensures r.children == a.children
    ensures a.state == Paused ==> r == a
    ensures a.state != Paused && |a.children| > 0 ==>
      r.state == Paused && r.commands == a.commands + [PauseStoryboard]
    ensures a.state != Paused && |a.children| == 0 ==> r.state == Stopped && r.commands == a.commands
  {
    if a.state != Paused then
      if |a.children| > 0 then a.(state := Paused, commands := a.commands + [PauseStoryboard])
      else a.(state := Stopped)
    else a
  }

  /** `Stop()`: stops the storyboard if it has children and is not already
      stopped; the state is `Stopped` either way. */
  function Stop(a: Animation): (r: Animation)
    ensures r.state == Stopped && r.children == a.children
    ensures r.commands == a.commands + (if |a.children| > 0 && a.state != Stopped then [StopStoryboard] else [])
  {
    var commands := if |a.children| > 0 && a.state != Stopped then a.commands + [StopStoryboard] else a.commands;
    a.(state := Stopped, commands := commands)
  }

  /** `Clear()`: stops a storyboard that is not stopped, empties it, and
      leaves the state `Stopped`. */
  function Clear(a: Animation): (r: Animation)
    ensures r.state == Stopped && r.children == []
    ensures r.commands == a.commands
      + (if a.state != Stopped then [StopStoryboard] else [])
      + (if |a.children| > 0 then [ClearChildren] else [])
  {
    var commands := if a.state != Stopped then a.commands + [StopStoryboard] else a.commands;
    var commands := if |a.children| > 0 then commands + [ClearChildren] else commands;
    Animation(Stopped, [], commands)
  }

  /** The frames' delays in order. */
  function Delays(frames: seq<ImageFrame>): (r: seq<int>)
    ensures |r| == |frames| && forall i :: 0 <= i < |frames| ==> r[i] == frames[i].delay
  {
    seq(|frames|, i requires 0 <= i < |frames| => frames[i].delay)
  }

  /** The key frames the animation should hold: frame `i` starts once the
      frames before it have shown for their delays. */
  function KeyFramesOf(frames: seq<ImageFrame>): (r: seq<KeyFrame>)
    ensures |r| == |frames|
  {
    seq(|frames|, i requires 0 <= i < |frames| => KeyFrame(Sum(Delays(frames)[..i]), frames[i].bitmap))
  }

  /** The loop of `SetAnimation`: a running time span starting at zero is
      the key time of each frame and then grows by its delay. */
  method KeyFrames(frames: seq<ImageFrame>) returns (keys: seq<KeyFrame>)
    ensures |keys| == |frames|
    ensures forall i :: 0 <= i < |frames| ==>
      keys[i].value == frames[i].bitmap && keys[i].keyTime == Sum(Delays(frames)[..i])
    ensures keys == KeyFramesOf(frames)
  {
    var delays := Delays(frames);
    var ts := 0;
    keys := [];
    for j := 0 to |frames|
      invariant |keys| == j
      invariant ts == Sum(delays[..j])
      invariant forall i :: 0 <= i < j ==> keys[i] == KeyFrame(Sum(delays[..i]), frames[i].bitmap)
    {
      keys := keys + [KeyFrame(ts, frames[j].bitmap)];
      assert delays[..j + 1][..j] == delays[..j];
      ts := ts + frames[j].delay;
    }
  }

  /** With no negative delay the key times never go back, and the first
      frame starts at once. */
  lemma KeyTimesAscend(frames: seq<ImageFrame>)
    requires forall i :: 0 <= i < |frames| ==> frames[i].delay >= 0
    ensures |frames| > 0 ==> KeyFramesOf(frames)[0].keyTime == 0
    ensures forall i, j :: 0 <= i <= j < |frames| ==> KeyFramesOf(frames)[i].keyTime <= KeyFramesOf(frames)[j].keyTime
  {
    var delays := Delays(frames);
    forall i, j | 0 <= i <= j < |frames|
      ensures Sum(delays[..i]) <= Sum(delays[..j])
    {
      SumPrefixGrows(delays, i, j);
    }
  }

  /** Sums of longer prefixes of a non-negative sequence are no smaller. */
  lemma {:induction false} SumPrefixGrows(s: seq<int>, i: nat, j: nat)
    requires i <= j <= |s|
    requires forall k :: 0 <= k < |s| ==> s[k] >= 0
    ensures Sum(s[..i]) <= Sum(s[..j])
    decreases j - i
  {
    if i < j {
      SumPrefixGrows(s, i, j - 1);
      assert s[..j][..j - 1] == s[..j - 1];
    }
  }

  /** `SetAnimation(targetImage, frames)`: clears, then adds one key-frame
      animation of the target holding every frame. The guard meant to skip a
      null or empty list is written with `&&`: as written, a null list
      dereferences null in the guard and an empty list is not skipped, so an
      animation without key frames is added; corrected, both return after
      the clear. */
  function SetAnimation(a: Animation, target: Image, frames: Option<seq<ImageFrame>>, variant: Variant)
    : (r: (Animation, Outcome))
    ensures r.0.state == Stopped && r.0.commands == Clear(a).commands
    ensures variant.AsWritten? ==> (r.1 == Raised(NullReferenceException) <==> frames.None?)
    ensures variant.Corrected? ==> r.1 == Done
    ensures r.1.Done? && frames.Some? && (|frames.value| > 0 || variant.AsWritten?) ==>
      r.0.children == [KeyFrameAnimation(target, KeyFramesOf(frames.value))]
    ensures frames.None? || (variant.Corrected? && |frames.value| == 0) ==> r.0.children == []
  {
    var cleared := Clear(a);
    match frames
    case None =>
      if variant.AsWritten? then (cleared, Raised(NullReferenceException)) else (cleared, Done)
    case Some(fs) =>
      if variant.Corrected? && |fs| == 0 then (cleared, Done)
      else (cleared.(children := cleared.children + [KeyFrameAnimation(target, KeyFramesOf(fs))]), Done)
  }

  /** Every operation keeps a claimed play state backed by the storyboard. */
  lemma OperationsKeepValid(a: Animation, target: Image, frames: Option<seq<ImageFrame>>, variant: Variant)
    requires Valid(a)
    ensures Valid(Begin(a)) && Valid(Resume(a)) && Valid(Pause(a)) && Valid(Stop(a)) && Valid(Clear(a))
    ensures Valid(SetAnimation(a, target, frames, variant).0)
  {
  }

  /** Playing and pausing without anything to play leaves the animation
      stopped, and stopping twice sends one stop. */
  lemma NothingToPlay(a: Animation)
    requires |a.children| == 0
    ensures Begin(a).state != Playing || a.state == Playing
    ensures Stop(Stop(a)) == Stop(a)
  {
  }

  /** As written, an empty frame list makes `Begin` report `Playing` for a
      storyboard whose only animation has no key frames. */
  lemma EmptyFramesPlayNothing(a: Animation, target: Image)
    ensures var made := SetAnimation(a, target, Some([]), AsWritten);
      && made.1 == Done
      && Begin(made.0).state == Playing
      && !Animates(Begin(made.0))
  {
    assert Begin(SetAnimation(a, target, Some([]), AsWritten).0).children[0].keyFrames == [];
  }

  /** As written, a null frame list raises instead of returning. */
  lemma NullFramesRaise(a: Animation, target: Image)
    ensures SetAnimation(a, target, None, AsWritten).1 == Raised(NullReferenceException)
  {
  }

  /** Corrected, nothing raises, every animation in the storyboard has key
      frames, and `Begin` plays exactly when there were frames. */
  lemma CorrectedPlaysOnlyFrames(a: Animation, target: Image, frames: Option<seq<ImageFrame>>)
    ensures var made := SetAnimation(a, target, frames, Corrected);
      && made.1 == Done
      && Animates(made.0) && Animates(Begin(made.0))
      && (Begin(made.0).state == Playing <==> frames.Some? && |frames.value| > 0)
  {
  }
}
