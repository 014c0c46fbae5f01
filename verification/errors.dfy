/** The exceptions the navigator raises, one constructor per distinct failure. */
module Errors {

  /** Which argument of the iterator initialisation was rejected (`ValueError`). */
  datatype BadArgument = BatchSizeNotPositive | UnknownErrorPolicy | NegativeRetries

  datatype Error =
    /** `ValueError`: the path would leave the archive's root. */
    | InvalidPath
    /** `NotADirectoryError` from `cd`: the path names a member file. */
    | NotADirectory(path: string)
    /** `FileNotFoundError` from `cd`: nothing exists at the path. */
    | FileNotFound(path: string)
    /** `ValueError` from the iterator initialisation. */
    | InvalidArgument(arg: BadArgument)
    /** `RuntimeError`: the saved state belongs to another archive. */
    | DifferentZip
    /** `RuntimeError`: the saved state was made from another base directory. */
    | DifferentBase
    /** `RuntimeError`: the saved state was made with another extension filter. */
    | DifferentFilter
    /** `RuntimeError`: no member survives the safety and extension filters. */
    | NoFilesFound
    /** `FileNotFoundError` from resume: there is no state file. */
    | NoSavedState
    /** `RuntimeError` from the iterator protocol before initialisation. */
    | NotInitialized
    /** `StopIteration`: every batch has been handed out. */
    | StopIteration
    /** `RuntimeError`: the preflight found less free space than needed. */
    | InsufficientSpace(needed: nat, free: int)
    /** `RuntimeError` under the abort policy: a member name failed the traversal check. */
    | UnsafeMember(member: string)
    /** `RuntimeError` under the abort policy: every attempt to extract the member failed. */
    | ExtractionFailed(member: string)
}
