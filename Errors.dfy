/** The exception kinds raised by the archive controller and its utilities.
    Every domain kind is a subtype of one root archive error in the system;
    the model only distinguishes the kinds, not their messages. */
module Errors {
  import opened Results

  datatype Error =
    | ArchiveError
    | CollapseError
    | CommandNotFoundError(tried: seq<string>)
    | DuplicateTagException(tag: string)
    | CreationError
    | MountError
    | ValidationError
    | ExpandError
    | RepoError
    | ExtractError
    | UpdateError
      // Raised by the language runtime or the subprocess layer rather than the system itself:
    | OSError                    // a file could not be written or a tree removed
    | ValueError
    | RuntimeError(archiver: string)
    | IndexError
    | CalledProcessError(returnCode: int, cmd: seq<string>, stdout: Option<string>, stderr: string)
}
