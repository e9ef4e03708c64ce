/** Option and Result, and the errors a caller of the allocator can tell apart. */
module Wrappers {

  datatype Option<+T> = None | Some(value: T)

  datatype Result<+T, +E> = Ok(value: T) | Err(error: E)

  /** The sentinel errors come first; the others have only a message in the source. */
  datatype Error =
    | ErrNotFound
    | ErrNoIPAvailable
    | ErrAlreadyAllocated
    | ErrOptimisticLock
    | ErrNamespaceDoesNotExist
    | ErrPrefixMissing
    | ErrHasIPs
    | ErrHasChildren
    | ErrNotInPrefix
    | ErrLengthNotGreater
    | ErrNoFreePrefix
    | ErrChildNotAvailable
    | ErrInvalidChild
    | ErrNoChildPrefix
    | ErrOverlap
    | ErrAlreadyCreated
    | ErrPrefixesExist
    | ErrParse
}
