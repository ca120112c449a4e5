# Flogger caller lookup, modelled in Dafny

Flogger's logger reports the code that called it. It does not report its own
frames. The lookup lives in two classes of `com.google.common.flogger.util`:

- `StackGetter` is the interface to the stack-inspection mechanisms. It declares
  `callerOf` and `getStackForCaller`, and `getBestStackGetter` chooses the
  implementation for the running platform.
- `CallerFinder` is the public front. It checks its arguments and then asks the
  chosen getter, skipping one more frame so that its own frame is hidden.

The model is split into these modules:

- `Frames` (`frames.dfy`): stack frames, target classes and the argument errors.
  A frame matches a target when its declaring class name is the target's name.
- `CallerSearch` (`caller_search.dfy`): the search fixed by the documentation of
  `callerOf` and `getStackForCaller`, written as reference functions over a stack
  given as `seq<Frame>`, top first. Lemmas beside them state what the
  documentation promises:
  - when there is no caller;
  - which frame the caller is, given in both directions;
  - the bounds on the returned slice;
  - skipped frames are never examined;
  - one extra frame on top is cancelled by skipping one more frame.
- `StackGetter` (`stack_getter.dfy`): there is one `Getter` variant per
  implementation class, and every variant answers by the reference search.
  This module also holds the reflective probe `MaybeCreateStackGetter` and the
  selection loop `GetBestStackGetter`. Their results are stated as "the first
  candidate, in list order, that can be created, or else the throwable-based
  fallback".
- `CallerFinder` (`caller_finder.dfy`): a class whose one `const` field holds the
  getter chosen at construction. Its functions `FindCallerOf` and
  `GetStackForCallerOf` state:
  - the validation order (target, then depth, then skip);
  - the delegation with `skip + 1`;
  - that their own frame is hidden.
- `Wrappers` (`wrappers.dfy`): `Option` stands for a nullable result, and
  `Result` stands for a call that may throw an argument exception.

## Model

| member | source | states |
|---|---|---|
| CallerSearch.FirstTargetFrom | api/src/main/java/com/google/common/flogger/util/StackGetter.java:21-24 | the walk down the stack stops at the first frame of the target class; every frame passed over is not in the target; None means no target frame lies below the start |
| CallerSearch.EndOfRun | api/src/main/java/com/google/common/flogger/util/StackGetter.java:21-24 | the index it returns is just past the contiguous run of target frames: every frame in the run is in the target, and the frame at that index (if any) is not |
| CallerSearch.CallerIndex | api/src/main/java/com/google/common/flogger/util/StackGetter.java:21-28 | a caller index lies strictly below the skipped frames, inside the stack, on a frame that is not in the target |
| CallerSearch.CallerOf | api/src/main/java/com/google/common/flogger/util/StackGetter.java:21-30 | a returned caller is never a member of the target and is a frame of the stack below the skipped ones |
| CallerSearch.StackForCaller | api/src/main/java/com/google/common/flogger/util/StackGetter.java:32-44 | rejected exactly when maxDepth is 0 or below -1 or skipFrames is negative; at most maxDepth frames; empty exactly when callerOf finds no caller; otherwise the first frame is the caller |
| CallerSearch.SliceLength | api/src/main/java/com/google/common/flogger/util/StackGetter.java:33-38 | never more frames than remain; at most maxDepth; all remaining frames for -1 and whenever fewer than maxDepth remain |
| CallerSearch.CallerIndexIff | api/src/main/java/com/google/common/flogger/util/StackGetter.java:21-24 | the caller index is j if and only if some first run of target frames after the skip point ends just above frame j, which is not in the target |
| CallerSearch.CallerOfSomeIff | api/src/main/java/com/google/common/flogger/util/StackGetter.java:21-24 | callerOf returns frame f if and only if f is the frame right after the first contiguous run of target frames found after the skip |
| CallerSearch.CallerOfAbsentTarget | api/src/main/java/com/google/common/flogger/util/StackGetter.java:21-28 | no target frame at or below the skip point gives null |
| CallerSearch.CallerOfRunAtBottom | api/src/main/java/com/google/common/flogger/util/StackGetter.java:22-24 | a first run of target frames that reaches the bottom of the stack gives null |
| CallerSearch.StackForCallerIsSlice | api/src/main/java/com/google/common/flogger/util/StackGetter.java:33-38 | the result is the contiguous, in-order slice of the stack starting at the caller; for -1 it reaches the bottom; for a positive depth it holds exactly min(maxDepth, frames remaining) frames |
| CallerSearch.SkippedFramesAreIgnored | api/src/main/java/com/google/common/flogger/util/StackGetter.java:27-40 | two stacks that differ only in their first skipFrames frames give the same callerOf and the same getStackForCaller result |
| CallerSearch.ExtraFrameSkipped | api/src/main/java/com/google/common/flogger/util/StackGetter.java:27-40 | one extra frame on top, of any class, together with a skip count one larger, gives the same result for both queries |
| CallerSearch.WorkedExample | api/src/main/java/com/google/common/flogger/util/StackGetter.java:21-44 | on [A.m1, A.m2, B.m3, B.m4, C.m5] the caller of B is C.m5 and the whole stack from it is [C.m5]; D gives null and the empty stack; C, the bottom frame, gives null |
| StackGetter.Getter.CallerOf | api/src/main/java/com/google/common/flogger/util/StackGetter.java:21-30 | every implementation's callerOf agrees with the reference search |
| StackGetter.Getter.GetStackForCaller | api/src/main/java/com/google/common/flogger/util/StackGetter.java:32-44 | every implementation's getStackForCaller agrees with the reference search, including its rejections |
| StackGetter.MaybeCreateStackGetter | api/src/main/java/com/google/common/flogger/util/StackGetter.java:65-82 | a created getter is one this platform can build and is the class named; failure is an absent value, never an error, and happens only when no buildable getter has that name |
| StackGetter.GetBestStackGetter | api/src/main/java/com/google/common/flogger/util/StackGetter.java:51-63 | returns the getter of the first candidate, in list order, that can be created; returns the throwable-based fallback exactly when every candidate fails |
| StackGetter.BestStackGetterUnique | api/src/main/java/com/google/common/flogger/util/StackGetter.java:55-63 | selection is deterministic: a platform admits only one selected getter |
| StackGetter.SelectionOrder | api/src/main/java/com/google/common/flogger/util/StackGetter.java:46-63 | StackWalker is chosen when it can be built; otherwise JavaLangAccess when it can be built; otherwise the throwable-based getter |
| CallerFinder.CallerFinder.constructor | api/src/main/java/com/google/common/flogger/util/CallerFinder.java:27 | the single getter field is the one selection yields; it is a constant, so it is never reassigned |
| CallerFinder.CallerFinder.FindCallerOf | api/src/main/java/com/google/common/flogger/util/CallerFinder.java:29-49 | null target rejected first, then a negative skip; rejected exactly in those cases; otherwise exactly the getter's callerOf with skip + 1, which may be absent |
| CallerFinder.CallerFinder.GetStackForCallerOf | api/src/main/java/com/google/common/flogger/util/CallerFinder.java:51-70 | checks in order: null target, then maxDepth neither positive nor -1, then negative skip; rejected exactly in those cases; otherwise exactly the getter's result with skip + 1; empty (not absent) exactly when findCallerOf finds no caller |
| CallerFinder.CallerFinder.FindCallerOfHidesOwnFrame | api/src/main/java/com/google/common/flogger/util/CallerFinder.java:43-48 | with the finder's own frame on top of the caller's stack, findCallerOf(target, skip) equals the search on the caller's stack with skip |
| CallerFinder.CallerFinder.GetStackForCallerOfHidesOwnFrame | api/src/main/java/com/google/common/flogger/util/CallerFinder.java:61-69 | the same hiding of the finder's own frame for the bounded stack, for every depth, including the rejection of a bad depth |
| CallerFinder.CallerFinder.EntryPointsAgree | api/src/main/java/com/google/common/flogger/util/CallerFinder.java:27-70 | both entry points use the same getter, so a non-empty stack from getStackForCallerOf starts at the frame findCallerOf returns |
| CallerFinder.CallerFinder.GetStackForCallerOfInt32 | api/src/main/java/com/google/common/flogger/util/CallerFinder.java:61-69 | as written with 32-bit `int` arithmetic: shares the wrapper's validation; for every skip below the largest int, including the rejections of a null target, a bad depth and a negative skip, it equals the unbounded model |
| CallerFinder.CallerFinder.LargestSkipOverflows | api/src/main/java/com/google/common/flogger/util/CallerFinder.java:66-69 | skip = 2^31 - 1 passes every check, yet the getter receives -2^31 and rejects the call; the corrected wrapper returns the empty stack |

## Left out

- Reflection: `Class.forName(...).asSubclass(...).getDeclaredConstructor().newInstance()` and the catch-all `Throwable` handler are replaced by the parameter `available`. It is the set of getters whose reflective construction succeeds on the platform.
- The three concrete getters (StackWalker, JavaLangAccess and Throwable based) are not part of this model. How each captures the stack is left out; each is held to the shared contract of `callerOf` and `getStackForCaller`.
- Capturing the live thread stack is left out. The stack is an explicit `seq<Frame>` parameter, as seen by the code that calls the getter, top first.
- The static initialiser's thread safety is left out. The write-once static field is a `const` field set by the constructor.
- `Checks.checkNotNull` is not part of this model. A null target is the error `NullTarget`; the source signals it with a null-pointer exception rather than an illegal-argument exception.
- Exception messages are left out. An error carries the rejected value (`InvalidMaxDepth(maxDepth)`, `NegativeSkip(skip)`), not the message text.
- Frame fields other than the declaring class name take no part in matching. They are carried along unchanged.
- StackGetter.Getter.CallerOf: takes `skipFrames` as a `nat`. The documentation of `callerOf` does not say what a negative count does, and every caller in the source passes `skip + 1` with `skip >= 0`.
- CallerFinder.CallerFinder.FindCallerOf: integers are unbounded, so `skip + 1` does not wrap here. Its wrap-around is modelled only for `getStackForCallerOf` (see Findings). For `findCallerOf` the getter's behaviour on a negative count is unspecified.
- CallerFinder.CallerFinder.GetStackForCallerOf: integers are unbounded, so the wrapped `skip + 1` at the largest `int` is not modelled here; `GetStackForCallerOfInt32` models it.
- Idempotence, meaning equal results for repeated calls on an unchanged stack, holds because every query is a function. No separate lemma states it.

## Findings

| source | as written | input that shows it | evidently intended | confidence | as-written member | corrected member |
|---|---|---|---|---|---|---|
| api/src/main/java/com/google/common/flogger/util/CallerFinder.java:66-69 | `skip + 1` in 32-bit `int` arithmetic after checking only `skip >= 0` | `getStackForCallerOf(target, -1, Integer.MAX_VALUE)`: the getter receives `skipFrames = Integer.MIN_VALUE`, which its contract rejects with an illegal-argument exception | every non-negative skip is accepted; skipping past the whole stack finds no caller and yields the empty array | medium, not executed | CallerFinder.CallerFinder.LargestSkipOverflows | CallerFinder.CallerFinder.GetStackForCallerOf |
