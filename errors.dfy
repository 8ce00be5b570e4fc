/** The wrappers and error values shared by the model. */
module Errors {
  import opened Paths

  datatype Option<+T> = None | Some(value: T)

  datatype Result<+T, +E> = Success(value: T) | Failure(error: E)

  /** The errors the modelled code returns or passes along. */
  datatype Error =
    | NotExist(path: Path)                  // lstat or open of a missing path (ENOENT)
    | NotADirectory(path: Path)             // a path component is a regular file (ENOTDIR)
    | IsADirectory(path: Path)              // opening a directory for writing (EISDIR)
    | ReadFailed(path: Path)                // a template file could not be read
    | ListFailed(path: Path)                // a directory's entries could not be read
    | Message(text: string)                 // fmt.Errorf without a wrapped cause
    | Wrapped(context: string, cause: Error) // fmt.Errorf("<context>: %w", cause)
}
