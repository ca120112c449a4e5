/**
 * The stack-getter abstraction and the choice of the implementation to use.
 * Each implementation class is one variant of `Getter`; all of them answer the
 * two queries by the reference search of module CallerSearch. Whether an
 * implementation can be loaded and instantiated on the running platform is
 * given as the set `available`.
 */
module StackGetter {
  import opened Wrappers
  import opened Frames
  import CallerSearch

  /**
   * The implementations of the stack-getter interface. How each one captures
   * the stack differs; what they return is the same, so every variant answers
   * by the reference search.
   */
  datatype Getter = StackWalkerStackGetter | JavaLangAccessStackGetter | ThrowableStackGetter
  {
    /** The fully qualified name the implementation class is loaded by. */
    function ClassName(): string {
      match this
      case StackWalkerStackGetter => "com.google.common.flogger.util.StackWalkerStackGetter"
      case JavaLangAccessStackGetter => "com.google.common.flogger.util.JavaLangAccessStackGetter"
      case ThrowableStackGetter => "com.google.common.flogger.util.ThrowableStackGetter"
    }

    /**
     * `callerOf`: the first caller of `target` that is not a member of it,
     * searching below the first `skipFrames` frames; None when the target is
     * absent there or its first run is the bottom of the stack.
     */
    function CallerOf(stack: seq<Frame>, target: ClassRef, skipFrames: nat): (r: Option<Frame>)
      ensures r == CallerSearch.CallerOf(stack, target, skipFrames)
    {
      CallerSearch.CallerOf(stack, target, skipFrames)
    }

    /**
     * `getStackForCaller`: up to `maxDepth` frames from the caller down (-1 for
     * all of them), rejecting a depth of 0 or below -1 and a negative skip count.
     */
    function GetStackForCaller(stack: seq<Frame>, target: ClassRef, maxDepth: int, skipFrames: int)
      : (r: Result<seq<Frame>, ArgError>)
      ensures r == CallerSearch.StackForCaller(stack, target, maxDepth, skipFrames)
    {
      CallerSearch.StackForCaller(stack, target, maxDepth, skipFrames)
    }
  }

  /** The implementations tried, most preferred first. */
  const StackGetterImplementations: seq<string> := [
    "com.google.common.flogger.util.StackWalkerStackGetter",
    "com.google.common.flogger.util.JavaLangAccessStackGetter"
  ]

  /**
   * Loading the named class and calling its no-argument constructor: the
   * getter when that succeeds on this platform, None on any failure (no such
   * class, not a getter, no usable constructor, construction error). No
   * failure escapes.
   */
  function MaybeCreateStackGetter(className: string, available: set<Getter>): (r: Option<Getter>)
    ensures r.Some? ==> r.value in available && r.value.ClassName() == className
    ensures r.None? ==> forall g :: g in available ==> g.ClassName() != className
  {
    if StackWalkerStackGetter.ClassName() == className && StackWalkerStackGetter in available then
      Some(StackWalkerStackGetter)
    else if JavaLangAccessStackGetter.ClassName() == className && JavaLangAccessStackGetter in available then
      Some(JavaLangAccessStackGetter)
    else if ThrowableStackGetter.ClassName() == className && ThrowableStackGetter in available then
      Some(ThrowableStackGetter)
    else
      None
  }

  /**
   * `g` is what selection yields: the getter created for the first candidate,
   * in list order, whose creation succeeds, or the throwable-based fallback
   * when every candidate fails.
   */
  ghost predicate IsBestStackGetter(g: Getter, available: set<Getter>) {
    var names := StackGetterImplementations;
    (exists i :: 0 <= i < |names| && MaybeCreateStackGetter(names[i], available) == Some(g)
                 && forall k :: 0 <= k < i ==> MaybeCreateStackGetter(names[k], available).None?)
    || ((forall i :: 0 <= i < |names| ==> MaybeCreateStackGetter(names[i], available).None?)
        && g == ThrowableStackGetter)
  }

  /** `getBestStackGetter`: try each candidate in order, return the first created, else the fallback. */
  method GetBestStackGetter(available: set<Getter>) returns (g: Getter)
    ensures IsBestStackGetter(g, available)
    ensures g == ThrowableStackGetter
        <==> forall i :: 0 <= i < |StackGetterImplementations|
                         ==> MaybeCreateStackGetter(StackGetterImplementations[i], available).None?
  {
    var names := StackGetterImplementations;
    for i := 0 to |names|
      invariant forall k :: 0 <= k < i ==> MaybeCreateStackGetter(names[k], available).None?
    {
      var stackGetter := MaybeCreateStackGetter(names[i], available);
      if stackGetter.Some? {
        return stackGetter.value;
      }
    }
    return ThrowableStackGetter;
  }

  /** Selection is deterministic: one platform never yields two different getters. */
  lemma BestStackGetterUnique(g1: Getter, g2: Getter, available: set<Getter>)
    requires IsBestStackGetter(g1, available) && IsBestStackGetter(g2, available)
    ensures g1 == g2
  {
    var names := StackGetterImplementations;
    if i1 :| 0 <= i1 < |names| && MaybeCreateStackGetter(names[i1], available) == Some(g1)
             && forall k :: 0 <= k < i1 ==> MaybeCreateStackGetter(names[k], available).None? {
      var i2 :| 0 <= i2 < |names| && MaybeCreateStackGetter(names[i2], available) == Some(g2)
                && forall k :: 0 <= k < i2 ==> MaybeCreateStackGetter(names[k], available).None?;
      assert i1 == i2;
    }
  }

  /** The preference order in concrete terms. */
  lemma SelectionOrder(g: Getter, available: set<Getter>)
    requires IsBestStackGetter(g, available)
    ensures StackWalkerStackGetter in available ==> g == StackWalkerStackGetter
    ensures StackWalkerStackGetter !in available && JavaLangAccessStackGetter in available
            ==> g == JavaLangAccessStackGetter
    ensures StackWalkerStackGetter !in available && JavaLangAccessStackGetter !in available
            ==> g == ThrowableStackGetter
  {
    var names := StackGetterImplementations;
    assert MaybeCreateStackGetter(names[0], available)
        == if StackWalkerStackGetter in available then Some(StackWalkerStackGetter) else None;
    assert MaybeCreateStackGetter(names[1], available)
        == if JavaLangAccessStackGetter in available then Some(JavaLangAccessStackGetter) else None;
  }
}
