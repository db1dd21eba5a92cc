/**
 * The squat repetition counter of `process_video`: a two-state hysteresis
 * machine over the hip angle of each decoded video frame.
 *
 * The video decoding and the pose model are not modelled: a frame is either
 * one in which no pose landmarks were found, or one that carries the hip
 * angle (shoulder, hip, knee) computed from its landmarks.
 */
module VideoService {
  import opened Wrappers
  import opened Decimal

  /** Below this hip angle the squat is at its bottom and the machine arms. */
  const DownThreshold: real := 90.0
  /** Above this hip angle the lifter is standing and an armed machine counts a rep. */
  const UpThreshold: real := 160.0
  /** The angle the per-rep message compares against to choose its wording. */
  const ShallowAngle: real := 80.0

  // ---------------------------------------------------------------------------
  // Feedback messages
  // ---------------------------------------------------------------------------

  datatype Verdict = GoodForm | GoHigher

  function VerdictSuffix(v: Verdict): string {
    match v
    case GoodForm => ": Good form!"
    case GoHigher => ": Go higher, keep your back straight!"
  }

  /**
   * The message appended for rep number `rep`: `f"Rep {rep}: ..."`. It reads
   * back as that rep number and verdict, so distinct reps get distinct messages.
   */
  function RepFeedback(rep: nat, verdict: Verdict): (msg: string)
    ensures ParseRepFeedback(msg) == Some((rep, verdict))
  {
    var d := NatToDecimal(rep);
    var suffix := VerdictSuffix(verdict);
    var msg := "Rep " + d + suffix;
    assert msg[..4] == "Rep ";
    var rest := msg[4..];
    assert rest == d + suffix;
    DigitPrefixOfDecimal(rep, suffix);
    assert rest[..|d|] == d;
    assert rest[|d|..] == suffix;
    DecimalRoundTrip(rep);
    msg
  }

  /** The single message returned when no per-rep message was recorded. */
  const NoRepsMessage: string := "No reps detected, check your form!"

  /** Reads back the rep number and the verdict of a per-rep message. */
  function ParseRepFeedback(msg: string): Option<(nat, Verdict)> {
    if |msg| < 4 || msg[..4] != "Rep " then None
    else
      var rest := msg[4..];
      var k := DigitPrefixLength(rest);
      assert AllDigits(rest[..k]);
      if k == 0 then None
      else if rest[k..] == VerdictSuffix(GoodForm) then Some((DecimalValue(rest[..k]), GoodForm))
      else if rest[k..] == VerdictSuffix(GoHigher) then Some((DecimalValue(rest[..k]), GoHigher))
      else None
  }

  lemma NoRepsMessageIsNotPerRep()
    ensures ParseRepFeedback(NoRepsMessage) == None
  {
  }

  /** The messages of reps 1..n, in order, each saying "Good form!". */
  function RepLog(n: nat): (log: seq<string>)
    ensures |log| == n
  {
    if n == 0 then [] else RepLog(n - 1) + [RepFeedback(n, GoodForm)]
  }

  lemma {:induction false} RepLogAt(n: nat, i: nat)
    requires i < n
    ensures RepLog(n)[i] == RepFeedback(i + 1, GoodForm)
  {
    var prev := RepLog(n - 1);
    assert RepLog(n) == prev + [RepFeedback(n, GoodForm)];
    if i < n - 1 {
      RepLogAt(n - 1, i);
      assert RepLog(n)[i] == prev[i];
    }
  }

  // ---------------------------------------------------------------------------
  // Frames and the state machine
  // ---------------------------------------------------------------------------

  /**
   * One decoded frame: `NoLandmarks` when the pose model found no landmarks,
   * otherwise the hip angle in degrees computed from the landmarks.
   */
  datatype Frame = NoLandmarks | Landmarks(hipAngle: real)

  predicate IsLow(f: Frame) {
    f.Landmarks? && f.hipAngle < DownThreshold
  }

  predicate IsHigh(f: Frame) {
    f.Landmarks? && f.hipAngle > UpThreshold
  }

  /** A frame that can cause no transition: no landmarks, or an angle in [90, 160]. */
  predicate IsInert(f: Frame) {
    !IsLow(f) && !IsHigh(f)
  }

  /** The loop's state: `rep_count`, `going_down` and the `feedback` list. */
  datatype RepState = RepState(repCount: nat, goingDown: bool, feedback: seq<string>)

  const Initial: RepState := RepState(0, false, [])

  /** Whether frame `f` completes a rep from state `s`. */
  predicate CountsRep(s: RepState, f: Frame) {
    s.goingDown && IsHigh(f)
  }

  /** One iteration of the loop body, the two tests in the source's order. */
  function Step(s: RepState, f: Frame): (t: RepState)
    ensures t.repCount == s.repCount + (if CountsRep(s, f) then 1 else 0)
    ensures t.goingDown == (if s.goingDown then !IsHigh(f) else IsLow(f))
    ensures t.feedback == if CountsRep(s, f) then s.feedback + [RepFeedback(t.repCount, GoodForm)] else s.feedback
    ensures IsInert(f) ==> t == s
  {
    match f
    case NoLandmarks => s
    case Landmarks(hipAngle) =>
      var goingDown := if hipAngle < DownThreshold && !s.goingDown then true else s.goingDown;
      if hipAngle > UpThreshold && goingDown then
        var repCount: nat := s.repCount + 1;
        var message := if hipAngle < ShallowAngle then RepFeedback(repCount, GoHigher) else RepFeedback(repCount, GoodForm);
        RepState(repCount, false, s.feedback + [message])
      else
        RepState(s.repCount, goingDown, s.feedback)
  }

  /** The state after the loop has consumed all of `frames`, from the initial state. */
  function Run(frames: seq<Frame>): (s: RepState)
    ensures s.feedback == RepLog(s.repCount)
  {
    if frames == [] then Initial else Step(Run(frames[..|frames| - 1]), frames[|frames| - 1])
  }

  // ---------------------------------------------------------------------------
  // The result
  // ---------------------------------------------------------------------------

  /** The dictionary `process_video` returns. */
  datatype AnalysisResult = AnalysisResult(framesAnalyzed: nat, repsDetected: nat, feedback: seq<string>)

  /** Builds the result from the frame counter and the final loop state. */
  function Report(frameNum: nat, s: RepState): (r: AnalysisResult)
    ensures r.framesAnalyzed == frameNum && r.repsDetected == s.repCount
    ensures r.feedback != []
    ensures s.feedback != [] ==> r.feedback == s.feedback
    ensures s.feedback == [] ==> r.feedback == [NoRepsMessage]
  {
    AnalysisResult(frameNum, s.repCount, if s.feedback != [] then s.feedback else [NoRepsMessage])
  }

  /** The number of frames in which landmarks were found. */
  function DetectedCount(frames: seq<Frame>): (n: nat)
    ensures n <= |frames|
  {
    if frames == [] then 0
    else DetectedCount(frames[..|frames| - 1]) + (if frames[|frames| - 1].Landmarks? then 1 else 0)
  }

  /** What `process_video` returns for the frames of a video. */
  function Analyze(frames: seq<Frame>): (r: AnalysisResult)
    ensures r.framesAnalyzed == |frames|
    ensures r.repsDetected == RefCount(frames, |frames|)
    ensures r.feedback != []
    ensures r.repsDetected == 0 ==> r.feedback == [NoRepsMessage]
    ensures r.repsDetected > 0 ==> r.feedback == RepLog(r.repsDetected)
    ensures 2 * r.repsDetected <= DetectedCount(frames)
  {
    CountBound(frames);
    RepCountMatchesReference(frames, |frames|);
    assert frames[..|frames|] == frames;
    Report(|frames|, Run(frames))
  }

  /** The loop of `process_video`, over frames already decoded and measured. */
  method ProcessVideo(frames: seq<Frame>) returns (result: AnalysisResult)
    ensures result == Analyze(frames)
  {
    var feedback: seq<string> := [];
    var repCount: nat := 0;
    var goingDown := false;
    var frameNum: nat := 0;
    while frameNum < |frames|
      invariant frameNum <= |frames|
      invariant RepState(repCount, goingDown, feedback) == Run(frames[..frameNum])
    {
      var frame := frames[frameNum];
      frameNum := frameNum + 1;
      assert frames[..frameNum][..frameNum - 1] == frames[..frameNum - 1];
      if frame.Landmarks? {
        var hipAngle := frame.hipAngle;
        if hipAngle < DownThreshold && !goingDown {
          goingDown := true;
        }
        if hipAngle > UpThreshold && goingDown {
          repCount := repCount + 1;
          goingDown := false;
          if hipAngle < ShallowAngle {
            feedback := feedback + [RepFeedback(repCount, GoHigher)];
          } else {
            feedback := feedback + [RepFeedback(repCount, GoodForm)];
          }
        }
      }
    }
    assert frames[..frameNum] == frames;
    result := AnalysisResult(frameNum, repCount, if feedback != [] then feedback else [NoRepsMessage]);
  }

  // ---------------------------------------------------------------------------
  // A reference definition of the machine, without its state
  // ---------------------------------------------------------------------------

  /** Frame `i` is a bottom frame and no frame strictly between `i` and `j` is a standing frame. */
  ghost predicate LowSince(frames: seq<Frame>, i: nat, j: nat)
    requires i < j <= |frames|
  {
    IsLow(frames[i]) && forall m :: i < m < j ==> !IsHigh(frames[m])
  }

  /** The first `j` frames leave the machine armed: some bottom frame is not yet followed by a standing frame. */
  ghost predicate ArmedAt(frames: seq<Frame>, j: nat)
    requires j <= |frames|
  {
    exists i :: 0 <= i < j && LowSince(frames, i, j)
  }

  /** Frame `j` completes a rep: it is a standing frame and the frames before it leave the machine armed. */
  ghost predicate CountsAt(frames: seq<Frame>, j: nat)
    requires j < |frames|
  {
    IsHigh(frames[j]) && ArmedAt(frames, j)
  }

  /** The number of frames among the first `n` that complete a rep. */
  ghost function RefCount(frames: seq<Frame>, n: nat): nat
    requires n <= |frames|
  {
    if n == 0 then 0 else RefCount(frames, n - 1) + (if CountsAt(frames, n - 1) then 1 else 0)
  }

  /** How one more frame changes the reference's armed state: the same rule as `Step`'s. */
  lemma ArmedStep(frames: seq<Frame>, j: nat)
    requires 0 < j <= |frames|
    ensures ArmedAt(frames, j) <==> if ArmedAt(frames, j - 1) then !IsHigh(frames[j - 1]) else IsLow(frames[j - 1])
  {
    var f := frames[j - 1];
    if IsLow(f) {
      assert LowSince(frames, j - 1, j);
    } else if IsHigh(f) {
      forall i | 0 <= i < j
        ensures !LowSince(frames, i, j)
      {
        if i < j - 1 {
          assert IsHigh(frames[j - 1]);
        }
      }
    } else {
      ArmedInert(frames, j);
    }
  }

  lemma ArmedInert(frames: seq<Frame>, j: nat)
    requires 0 < j <= |frames| && IsInert(frames[j - 1])
    ensures ArmedAt(frames, j) <==> ArmedAt(frames, j - 1)
  {
    if ArmedAt(frames, j - 1) {
      var i :| 0 <= i < j - 1 && LowSince(frames, i, j - 1);
      assert LowSince(frames, i, j);
    }
    if ArmedAt(frames, j) {
      var i :| 0 <= i < j && LowSince(frames, i, j);
      assert LowSince(frames, i, j - 1);
    }
  }

  /** `going_down` after `j` frames holds exactly when a bottom frame is not yet followed by a standing frame. */
  lemma {:induction false} ArmedIff(frames: seq<Frame>, j: nat)
    requires j <= |frames|
    ensures Run(frames[..j]).goingDown <==> ArmedAt(frames, j)
  {
    if j == 0 {
      assert frames[..0] == [];
    } else {
      ArmedIff(frames, j - 1);
      ArmedStep(frames, j);
      assert frames[..j][..j - 1] == frames[..j - 1];
    }
  }

  /** `rep_count` after `n` frames is the number of those frames that complete a rep. */
  lemma {:induction false} RepCountMatchesReference(frames: seq<Frame>, n: nat)
    requires n <= |frames|
    ensures Run(frames[..n]).repCount == RefCount(frames, n)
  {
    if n == 0 {
      assert frames[..0] == [];
    } else {
      RepCountMatchesReference(frames, n - 1);
      ArmedIff(frames, n - 1);
      var prev := Run(frames[..n - 1]);
      assert frames[..n][..n - 1] == frames[..n - 1];
      assert Run(frames[..n]) == Step(prev, frames[n - 1]);
      assert CountsRep(prev, frames[n - 1]) == CountsAt(frames, n - 1);
    }
  }

  /** Frame `j` raises `rep_count` exactly when it stands up after a bottom frame not yet followed by a standing frame. */
  lemma CountingFrameIff(frames: seq<Frame>, j: nat)
    requires j < |frames|
    ensures Run(frames[..j + 1]).repCount == Run(frames[..j]).repCount + 1 <==> CountsAt(frames, j)
    ensures Run(frames[..j + 1]).repCount == Run(frames[..j]).repCount || CountsAt(frames, j)
  {
    ArmedIff(frames, j);
    assert frames[..j + 1][..j] == frames[..j];
  }

  // ---------------------------------------------------------------------------
  // Properties of the machine
  // ---------------------------------------------------------------------------

  /** Each rep needs its own bottom frame and its own standing frame, both with landmarks. */
  lemma {:induction false} CountBound(frames: seq<Frame>)
    ensures 2 * Run(frames).repCount + (if Run(frames).goingDown then 1 else 0) <= DetectedCount(frames)
  {
    if frames != [] {
      CountBound(frames[..|frames| - 1]);
    }
  }

  /** `rep_count` never decreases and `feedback` only grows, at its end. */
  lemma {:induction false} RunPrefixGrows(frames: seq<Frame>, i: nat)
    requires i <= |frames|
    ensures Run(frames[..i]).repCount <= Run(frames).repCount
    ensures Run(frames[..i]).feedback <= Run(frames).feedback
  {
    if i < |frames| {
      var init := frames[..|frames| - 1];
      assert init[..i] == frames[..i];
      RunPrefixGrows(init, i);
    } else {
      assert frames[..i] == frames;
    }
  }

  /** The frames that can cause a transition, in their order. */
  function Relevant(frames: seq<Frame>): (rel: seq<Frame>)
    ensures |rel| <= |frames|
    ensures forall i :: 0 <= i < |rel| ==> !IsInert(rel[i])
    ensures forall g :: g in rel <==> g in frames && !IsInert(g)
  {
    if frames == [] then []
    else
      var prefix := frames[..|frames| - 1];
      var init := Relevant(prefix);
      var f := frames[|frames| - 1];
      assert frames == prefix + [f];
      if IsInert(f) then init else init + [f]
  }

  /** Frames without landmarks and frames with an angle in [90, 160] do not affect the state. */
  lemma {:induction false} InertFramesIgnored(frames: seq<Frame>)
    ensures Run(Relevant(frames)) == Run(frames)
  {
    if frames != [] {
      var init := frames[..|frames| - 1];
      InertFramesIgnored(init);
      var f := frames[|frames| - 1];
      if !IsInert(f) {
        var rel := Relevant(init) + [f];
        assert rel[..|rel| - 1] == Relevant(init);
      }
    }
  }

  /** Dropping inert frames changes only the frame count of the result. */
  lemma SkippedFramesOnlyCounted(frames: seq<Frame>)
    ensures Analyze(Relevant(frames)) == Analyze(frames).(framesAnalyzed := |Relevant(frames)|)
  {
    InertFramesIgnored(frames);
  }

  /** The i-th feedback entry names rep i + 1 with "Good form!"; the fallback message names none. */
  lemma FeedbackNumbered(frames: seq<Frame>, i: nat)
    requires i < |Analyze(frames).feedback|
    ensures ParseRepFeedback(Analyze(frames).feedback[i])
         == if Analyze(frames).repsDetected == 0 then None else Some((i + 1, GoodForm))
  {
    var r := Analyze(frames);
    if r.repsDetected == 0 {
      NoRepsMessageIsNotPerRep();
    } else {
      RepLogAt(r.repsDetected, i);
    }
  }

  /**
   * A last frame that is not a standing frame adds no rep and no message: in
   * particular a video that ends half-way down leaves the machine armed and
   * counts no rep for that unfinished descent.
   */
  lemma NoFlushAtEnd(frames: seq<Frame>, f: Frame)
    requires !IsHigh(f)
    ensures Analyze(frames + [f]).repsDetected == Analyze(frames).repsDetected
    ensures Analyze(frames + [f]).feedback == Analyze(frames).feedback
    ensures IsLow(f) ==> Run(frames + [f]).goingDown
  {
  }

  /** Standing, an undetected frame, the bottom, half-way up, standing again: one rep. */
  lemma OneRep()
    ensures Analyze([Landmarks(170.0), NoLandmarks, Landmarks(70.0), Landmarks(120.0), Landmarks(170.0)])
         == AnalysisResult(5, 1, [RepFeedback(1, GoodForm)])
  {
    var frames := [Landmarks(170.0), NoLandmarks, Landmarks(70.0), Landmarks(120.0), Landmarks(170.0)];
    forall k | 0 < k <= |frames| ensures frames[..k][..k - 1] == frames[..k - 1] { }
    assert frames[..0] == [];
    assert Run(frames[..1]) == Initial;
    assert Run(frames[..2]) == Initial;
    assert Run(frames[..3]) == RepState(0, true, []);
    assert Run(frames[..4]) == RepState(0, true, []);
    assert frames[..5] == frames;
  }
}
