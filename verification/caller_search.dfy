/**
 * The reference search every stack getter implements: skip the first
 * `skipFrames` frames, walk down to the first frame of the target class, pass
 * over the contiguous run of target frames, and report the frame after it.
 * Stacks are sequences of frames, the most recent call first.
 */
module CallerSearch {
  import opened Wrappers
  import opened Frames

  /** Index of the first target frame at or below index `from`, if there is one. */
  function FirstTargetFrom(stack: seq<Frame>, target: ClassRef, from: nat): (r: Option<nat>)
    ensures r.Some? ==> from <= r.value < |stack| && InTarget(stack[r.value], target)
    ensures r.Some? ==> forall k :: from <= k < r.value ==> !InTarget(stack[k], target)
    ensures r.None? ==> forall k :: from <= k < |stack| ==> !InTarget(stack[k], target)
    decreases |stack| - from
  {
    if from >= |stack| then None
    else if InTarget(stack[from], target) then Some(from)
    else FirstTargetFrom(stack, target, from + 1)
  }

  /** Index just past the contiguous run of target frames that starts at `from`. */
  function EndOfRun(stack: seq<Frame>, target: ClassRef, from: nat): (r: nat)
    requires from <= |stack|
    ensures from <= r <= |stack|
    ensures forall k :: from <= k < r ==> InTarget(stack[k], target)
    ensures r < |stack| ==> !InTarget(stack[r], target)
    decreases |stack| - from
  {
    if from == |stack| || !InTarget(stack[from], target) then from
    else EndOfRun(stack, target, from + 1)
  }

  /** Index of the caller frame, or None when the target is absent or its run reaches the bottom. */
  function CallerIndex(stack: seq<Frame>, target: ClassRef, skipFrames: nat): (r: Option<nat>)
    ensures r.Some? ==> skipFrames < r.value < |stack| && !InTarget(stack[r.value], target)
  {
    match FirstTargetFrom(stack, target, skipFrames)
    case None => None
    case Some(i) =>
      var j := EndOfRun(stack, target, i);
      if j < |stack| then Some(j) else None
  }

  /** The contract of `callerOf`: the first caller of the target that is not itself in the target. */
  function CallerOf(stack: seq<Frame>, target: ClassRef, skipFrames: nat): (r: Option<Frame>)
    ensures r.Some? ==> !InTarget(r.value, target)
    ensures r.Some? ==> exists j :: skipFrames < j < |stack| && r.value == stack[j]
  {
    match CallerIndex(stack, target, skipFrames)
    case None => None
    case Some(j) => Some(stack[j])
  }

  /** Number of frames returned from caller index `j` on a stack of `n` frames. */
  function SliceLength(n: nat, j: nat, maxDepth: int): (len: nat)
    requires j <= n && ValidMaxDepth(maxDepth)
    ensures len <= n - j
    ensures maxDepth > 0 ==> len <= maxDepth
    ensures maxDepth == -1 ==> len == n - j
    ensures maxDepth > 0 && len < maxDepth ==> len == n - j
  {
    if maxDepth == -1 || n - j <= maxDepth then n - j else maxDepth
  }

  /**
   * The contract of `getStackForCaller`: up to `maxDepth` frames starting at the
   * caller frame (all of them for -1), the empty sequence when there is no
   * caller, and a rejection for a bad depth or a negative skip count.
   */
  function StackForCaller(stack: seq<Frame>, target: ClassRef, maxDepth: int, skipFrames: int)
    : (r: Result<seq<Frame>, ArgError>)
    ensures r.Failure? <==> !ValidMaxDepth(maxDepth) || skipFrames < 0
    ensures r.Success? && maxDepth > 0 ==> |r.value| <= maxDepth
    ensures r.Success? ==> (r.value == [] <==> CallerOf(stack, target, skipFrames).None?)
    ensures r.Success? && r.value != [] ==> CallerOf(stack, target, skipFrames) == Some(r.value[0])
  {
    if !ValidMaxDepth(maxDepth) then Failure(InvalidMaxDepth(maxDepth))
    else if skipFrames < 0 then Failure(NegativeSkip(skipFrames))
    else
      match CallerIndex(stack, target, skipFrames)
      case None => Success([])
      case Some(j) => Success(stack[j..j + SliceLength(|stack|, j, maxDepth)])
  }

  /**
   * `i` starts the first run of target frames at or after the skip point and
   * `j`, the first frame below that run, is a frame of the stack.
   */
  ghost predicate RunFollowedBy(stack: seq<Frame>, target: ClassRef, skipFrames: nat, i: nat, j: nat) {
    skipFrames <= i < j < |stack|
    && InTarget(stack[i], target)
    && (forall k :: skipFrames <= k < i ==> !InTarget(stack[k], target))
    && (forall k :: i <= k < j ==> InTarget(stack[k], target))
    && !InTarget(stack[j], target)
  }

  /** The caller index is exactly the frame that follows the first run of target frames. */
  lemma CallerIndexIff(stack: seq<Frame>, target: ClassRef, skipFrames: nat, j: nat)
    ensures CallerIndex(stack, target, skipFrames) == Some(j)
        <==> exists i: nat :: RunFollowedBy(stack, target, skipFrames, i, j)
  {
    match FirstTargetFrom(stack, target, skipFrames)
    case None =>
      if i: nat :| RunFollowedBy(stack, target, skipFrames, i, j) {
        assert false;
      }
    case Some(i0) =>
      if CallerIndex(stack, target, skipFrames) == Some(j) {
        assert RunFollowedBy(stack, target, skipFrames, i0, j);
      }
      if i: nat :| RunFollowedBy(stack, target, skipFrames, i, j) {
        assert i == i0;
        assert EndOfRun(stack, target, i0) == j;
      }
  }

  /** `callerOf` returns a frame exactly when some first run of target frames is followed by that frame. */
  lemma CallerOfSomeIff(stack: seq<Frame>, target: ClassRef, skipFrames: nat, f: Frame)
    ensures CallerOf(stack, target, skipFrames) == Some(f)
        <==> exists i: nat, j: nat :: RunFollowedBy(stack, target, skipFrames, i, j) && stack[j] == f
  {
    match CallerIndex(stack, target, skipFrames)
    case None =>
      if i: nat, j: nat :| RunFollowedBy(stack, target, skipFrames, i, j) && stack[j] == f {
        CallerIndexIff(stack, target, skipFrames, j);
        assert false;
      }
    case Some(j0) =>
      CallerIndexIff(stack, target, skipFrames, j0);
      if i: nat, j: nat :| RunFollowedBy(stack, target, skipFrames, i, j) && stack[j] == f {
        CallerIndexIff(stack, target, skipFrames, j);
      }
  }

  /** No target frame at or below the skip point: there is no caller. */
  lemma CallerOfAbsentTarget(stack: seq<Frame>, target: ClassRef, skipFrames: nat)
    requires forall k :: skipFrames <= k < |stack| ==> !InTarget(stack[k], target)
    ensures CallerOf(stack, target, skipFrames) == None
  {
  }

  /** The first run of target frames reaches the bottom of the stack: there is no caller. */
  lemma CallerOfRunAtBottom(stack: seq<Frame>, target: ClassRef, skipFrames: nat, i: nat)
    requires skipFrames <= i < |stack|
    requires forall k :: skipFrames <= k < i ==> !InTarget(stack[k], target)
    requires forall k :: i <= k < |stack| ==> InTarget(stack[k], target)
    ensures CallerOf(stack, target, skipFrames) == None
  {
  }

  /** `getStackForCaller` returns an in-order slice of the stack that starts at the caller frame. */
  lemma StackForCallerIsSlice(stack: seq<Frame>, target: ClassRef, maxDepth: int, skipFrames: nat, j: nat)
    requires ValidMaxDepth(maxDepth)
    requires CallerIndex(stack, target, skipFrames) == Some(j)
    ensures var r := StackForCaller(stack, target, maxDepth, skipFrames);
      && r.Success?
      && j + |r.value| <= |stack|
      && r.value == stack[j..j + |r.value|]
      && (maxDepth == -1 ==> j + |r.value| == |stack|)
      && (maxDepth > 0 ==> |r.value| == if |stack| - j < maxDepth then |stack| - j else maxDepth)
  {
  }

  /**
   * Only frames below the first `skipFrames` are examined: two stacks that
   * agree from the skip point down give the same first target index.
   */
  lemma {:induction false} FirstTargetFromIgnoresSkipped(s1: seq<Frame>, s2: seq<Frame>, target: ClassRef,
                                                        skipFrames: nat, from: nat)
    requires |s1| == |s2| && skipFrames <= from
    requires forall k :: skipFrames <= k < |s1| ==> s1[k] == s2[k]
    ensures FirstTargetFrom(s1, target, from) == FirstTargetFrom(s2, target, from)
    decreases |s1| - from
  {
    if from < |s1| && !InTarget(s1[from], target) {
      FirstTargetFromIgnoresSkipped(s1, s2, target, skipFrames, from + 1);
    }
  }

  /** Same for the end of a run of target frames that starts below the skip point. */
  lemma {:induction false} EndOfRunIgnoresSkipped(s1: seq<Frame>, s2: seq<Frame>, target: ClassRef,
                                                 skipFrames: nat, from: nat)
    requires |s1| == |s2| && skipFrames <= from <= |s1|
    requires forall k :: skipFrames <= k < |s1| ==> s1[k] == s2[k]
    ensures EndOfRun(s1, target, from) == EndOfRun(s2, target, from)
    decreases |s1| - from
  {
    if from < |s1| && InTarget(s1[from], target) {
      EndOfRunIgnoresSkipped(s1, s2, target, skipFrames, from + 1);
    }
  }

  /** Changing any of the first `skipFrames` frames changes neither query's result. */
  lemma SkippedFramesAreIgnored(s1: seq<Frame>, s2: seq<Frame>, target: ClassRef, maxDepth: int, skipFrames: nat)
    requires |s1| == |s2|
    requires forall k :: skipFrames <= k < |s1| ==> s1[k] == s2[k]
    ensures CallerOf(s1, target, skipFrames) == CallerOf(s2, target, skipFrames)
    ensures StackForCaller(s1, target, maxDepth, skipFrames) == StackForCaller(s2, target, maxDepth, skipFrames)
  {
    FirstTargetFromIgnoresSkipped(s1, s2, target, skipFrames, skipFrames);
    match FirstTargetFrom(s1, target, skipFrames)
    case None =>
    case Some(i) =>
      EndOfRunIgnoresSkipped(s1, s2, target, skipFrames, i);
      var j := EndOfRun(s1, target, i);
      if j < |s1| && ValidMaxDepth(maxDepth) {
        var n := SliceLength(|s1|, j, maxDepth);
        assert s1[j..j + n] == s2[j..j + n];
      }
  }

  /** One extra frame on top shifts the first target index down by one. */
  lemma {:induction false} FirstTargetFromBelowFrame(x: Frame, s: seq<Frame>, target: ClassRef, from: nat)
    ensures FirstTargetFrom([x] + s, target, from + 1)
         == match FirstTargetFrom(s, target, from) case None => None case Some(i) => Some(i + 1)
    decreases |s| - from
  {
    if from < |s| {
      assert ([x] + s)[from + 1] == s[from];
      if !InTarget(s[from], target) {
        FirstTargetFromBelowFrame(x, s, target, from + 1);
      }
    }
  }

  /** One extra frame on top shifts the end of a run down by one. */
  lemma {:induction false} EndOfRunBelowFrame(x: Frame, s: seq<Frame>, target: ClassRef, from: nat)
    requires from <= |s|
    ensures EndOfRun([x] + s, target, from + 1) == EndOfRun(s, target, from) + 1
    decreases |s| - from
  {
    if from < |s| {
      assert ([x] + s)[from + 1] == s[from];
      if InTarget(s[from], target) {
        EndOfRunBelowFrame(x, s, target, from + 1);
      }
    }
  }

  /**
   * Skipping one more frame on a stack with one more frame on top gives the
   * same answer, whatever that extra frame is: this is what lets a wrapper
   * hide its own frame by adding one to the skip count.
   */
  lemma ExtraFrameSkipped(x: Frame, s: seq<Frame>, target: ClassRef, maxDepth: int, skipFrames: nat)
    ensures CallerOf([x] + s, target, skipFrames + 1) == CallerOf(s, target, skipFrames)
    ensures StackForCaller([x] + s, target, maxDepth, skipFrames + 1) == StackForCaller(s, target, maxDepth, skipFrames)
  {
    CallerIndexBelowFrame(x, s, target, skipFrames);
    match CallerIndex(s, target, skipFrames)
    case None =>
    case Some(j) =>
      assert ([x] + s)[j + 1] == s[j];
      if ValidMaxDepth(maxDepth) {
        var n := SliceLength(|s|, j, maxDepth);
        assert SliceLength(|s| + 1, j + 1, maxDepth) == n;
        assert ([x] + s)[j + 1..j + 1 + n] == s[j..j + n];
      }
  }

  /** One extra frame on top, skipped, shifts the caller index down by one. */
  lemma CallerIndexBelowFrame(x: Frame, s: seq<Frame>, target: ClassRef, skipFrames: nat)
    ensures CallerIndex([x] + s, target, skipFrames + 1)
         == match CallerIndex(s, target, skipFrames) case None => None case Some(j) => Some(j + 1)
  {
    FirstTargetFromBelowFrame(x, s, target, skipFrames);
    match FirstTargetFrom(s, target, skipFrames)
    case None =>
    case Some(i) =>
      EndOfRunBelowFrame(x, s, target, i);
  }

  /**
   * A five-frame stack [A.m1, A.m2, B.m3, B.m4, C.m5]: the caller of B, a
   * target D that is absent, and a target C whose run is the bottom frame.
   */
  lemma WorkedExample()
    ensures var stack := [Frame("A", "m1", None, 1), Frame("A", "m2", None, 2), Frame("B", "m3", None, 3),
                          Frame("B", "m4", None, 4), Frame("C", "m5", None, 5)];
      && CallerOf(stack, ClassRef("B"), 0) == Some(stack[4])
      && StackForCaller(stack, ClassRef("B"), -1, 0) == Success([stack[4]])
      && CallerOf(stack, ClassRef("D"), 0) == None
      && StackForCaller(stack, ClassRef("D"), -1, 0) == Success([])
      && CallerOf(stack, ClassRef("C"), 0) == None
  {
    var stack := [Frame("A", "m1", None, 1), Frame("A", "m2", None, 2), Frame("B", "m3", None, 3),
                  Frame("B", "m4", None, 4), Frame("C", "m5", None, 5)];
    CallerOfAbsentTarget(stack, ClassRef("D"), 0);
    CallerOfRunAtBottom(stack, ClassRef("C"), 0, 4);
    assert RunFollowedBy(stack, ClassRef("B"), 0, 2, 4);
    CallerIndexIff(stack, ClassRef("B"), 0, 4);
    assert stack[4..5] == [stack[4]];
  }
}
