/** The values the caller search works on: stack frames, target classes and argument errors. */
module Frames {
  import opened Wrappers

  /**
   * One entry of a call stack. Only the declaring class name takes part in the
   * search; the method name, file name and line number are carried along untouched.
   */
  datatype Frame = Frame(className: string, methodName: string, fileName: Option<string>, lineNumber: int)

  /** A class whose callers are looked for, identified by its fully qualified name. */
  datatype ClassRef = ClassRef(name: string)

  /** Why a call was rejected before the stack was looked at. */
  datatype ArgError =
    | NullTarget                  // the target class reference was null
    | InvalidMaxDepth(maxDepth: int)  // maxDepth was 0 or below -1
    | NegativeSkip(skip: int)     // the skip count was negative

  /** A frame belongs to the target when its declaring class is the target class. */
  predicate InTarget(f: Frame, target: ClassRef) {
    f.className == target.name
  }

  /** The depth argument is a positive bound or the -1 "whole stack" sentinel. */
  predicate ValidMaxDepth(maxDepth: int) {
    maxDepth > 0 || maxDepth == -1
  }
}
