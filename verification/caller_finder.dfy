/**
 * The public entry points for finding the caller of a class. Both validate
 * their arguments and then ask the one stack getter chosen when the finder is
 * created, skipping one frame more than asked: the stack the getter is handed
 * is the one seen from inside the finder, whose own frame is on top.
 */
module CallerFinder {
  import opened Wrappers
  import opened Frames
  import CallerSearch
  import opened StackGetter

  /** Java `int` addition: the exact sum wrapped into [-2^31, 2^31). */
  function AddInt32(a: int, b: int): (r: int)
    requires -0x8000_0000 <= a < 0x8000_0000 && -0x8000_0000 <= b < 0x8000_0000
    ensures -0x8000_0000 <= r < 0x8000_0000
    ensures r == a + b || r == a + b - 0x1_0000_0000 || r == a + b + 0x1_0000_0000
  {
    var s := a + b;
    if s >= 0x8000_0000 then s - 0x1_0000_0000
    else if s < -0x8000_0000 then s + 0x1_0000_0000
    else s
  }

  class CallerFinder {
    /** The getter both entry points use; chosen once and never replaced. */
    const stackGetter: Getter

    /** Chooses the getter for a platform on which the getters in `available` can be created. */
    constructor (available: set<Getter>)
      ensures IsBestStackGetter(stackGetter, available)
    {
      var g := GetBestStackGetter(available);
      stackGetter := g;
    }

    /**
     * `findCallerOf`: rejects a null target, then a negative skip count, and
     * otherwise reports the getter's caller with one more frame skipped (None
     * when no caller is found).
     */
    function FindCallerOf(stack: seq<Frame>, target: Option<ClassRef>, skip: int)
      : (r: Result<Option<Frame>, ArgError>)
      ensures target.None? ==> r == Failure(NullTarget)
      ensures target.Some? && skip < 0 ==> r == Failure(NegativeSkip(skip))
      ensures r.Failure? <==> target.None? || skip < 0
      ensures r.Success? ==> r.value == stackGetter.CallerOf(stack, target.value, skip + 1)
    {
      if target.None? then Failure(NullTarget)
      else if skip < 0 then Failure(NegativeSkip(skip))
      else Success(stackGetter.CallerOf(stack, target.value, skip + 1))
    }

    /**
     * `getStackForCallerOf`: rejects a null target, then a depth that is
     * neither positive nor -1, then a negative skip count, and otherwise
     * returns the getter's slice with one more frame skipped (empty, never
     * absent, when no caller is found).
     */
    function GetStackForCallerOf(stack: seq<Frame>, target: Option<ClassRef>, maxDepth: int, skip: int)
      : (r: Result<seq<Frame>, ArgError>)
      ensures target.None? ==> r == Failure(NullTarget)
      ensures target.Some? && !ValidMaxDepth(maxDepth) ==> r == Failure(InvalidMaxDepth(maxDepth))
      ensures target.Some? && ValidMaxDepth(maxDepth) && skip < 0 ==> r == Failure(NegativeSkip(skip))
      ensures r.Failure? <==> target.None? || !ValidMaxDepth(maxDepth) || skip < 0
      ensures r.Success? ==> Success(r.value) == stackGetter.GetStackForCaller(stack, target.value, maxDepth, skip + 1)
      ensures r.Success? ==> (r.value == [] <==> FindCallerOf(stack, target, skip) == Success(None))
    {
      if target.None? then Failure(NullTarget)
      else if !ValidMaxDepth(maxDepth) then Failure(InvalidMaxDepth(maxDepth))
      else if skip < 0 then Failure(NegativeSkip(skip))
      else stackGetter.GetStackForCaller(stack, target.value, maxDepth, skip + 1)
    }

    /**
     * `getStackForCallerOf` as written for a 32-bit `skip`: the adjusted skip
     * count `skip + 1` wraps around when `skip` is the largest `int`.
     */
    function GetStackForCallerOfInt32(stack: seq<Frame>, target: Option<ClassRef>, maxDepth: int, skip: int)
      : (r: Result<seq<Frame>, ArgError>)
      requires -0x8000_0000 <= skip < 0x8000_0000
      ensures skip < 0x7fff_ffff ==> r == GetStackForCallerOf(stack, target, maxDepth, skip)
    {
      if target.Some? && ValidMaxDepth(maxDepth) && skip >= 0 then
        stackGetter.GetStackForCaller(stack, target.value, maxDepth, AddInt32(skip, 1))
      else
        GetStackForCallerOf(stack, target, maxDepth, skip)
    }

    /**
     * With `skip` the largest `int`, every check of the wrapper passes, yet the
     * getter is handed a negative skip count and rejects the call; the
     * unbounded adjustment reports "no caller" instead.
     */
    lemma LargestSkipOverflows(stack: seq<Frame>, target: ClassRef, maxDepth: int)
      requires ValidMaxDepth(maxDepth) && |stack| <= 0x7fff_ffff
      ensures GetStackForCallerOfInt32(stack, Some(target), maxDepth, 0x7fff_ffff)
           == Failure(NegativeSkip(-0x8000_0000))
      ensures GetStackForCallerOf(stack, Some(target), maxDepth, 0x7fff_ffff) == Success([])
    {
      assert AddInt32(0x7fff_ffff, 1) == -0x8000_0000;
      assert CallerSearch.FirstTargetFrom(stack, target, 0x8000_0000) == None;
    }

    /**
     * Called with its own frame `self` on top of the caller's stack, the finder
     * answers exactly what the search gives on the caller's stack: its frame is
     * hidden whatever class it belongs to.
     */
    lemma FindCallerOfHidesOwnFrame(self: Frame, callerStack: seq<Frame>, target: ClassRef, skip: nat)
      ensures FindCallerOf([self] + callerStack, Some(target), skip)
           == Success(CallerSearch.CallerOf(callerStack, target, skip))
    {
      CallerSearch.ExtraFrameSkipped(self, callerStack, target, -1, skip);
    }

    /** The same for the bounded stack. */
    lemma GetStackForCallerOfHidesOwnFrame(self: Frame, callerStack: seq<Frame>, target: ClassRef,
                                           maxDepth: int, skip: nat)
      ensures GetStackForCallerOf([self] + callerStack, Some(target), maxDepth, skip)
           == CallerSearch.StackForCaller(callerStack, target, maxDepth, skip)
    {
      CallerSearch.ExtraFrameSkipped(self, callerStack, target, maxDepth, skip);
    }

    /** Both entry points use the same getter, so a non-empty stack starts at the caller found. */
    lemma EntryPointsAgree(stack: seq<Frame>, target: Option<ClassRef>, maxDepth: int, skip: int)
      requires GetStackForCallerOf(stack, target, maxDepth, skip).Success?
      ensures var frames := GetStackForCallerOf(stack, target, maxDepth, skip).value;
              frames != [] ==> FindCallerOf(stack, target, skip) == Success(Some(frames[0]))
    {
    }
  }
}
