/** The failure values of the tool (src/error.rs) and the wrappers used to return them. */
module Errors {

  /** The operating-system condition carried by a `std::io::Error`. */
  datatype IoErrorKind =
    | NotFound           // ENOENT: the path, or its parent, does not exist
    | AlreadyExists      // EEXIST: something is already at the path
    | NotADirectory      // ENOTDIR: a path component is not a directory
    | IsADirectory       // EISDIR: a file operation met a directory
    | TooManyLinks       // ELOOP: symbolic links nested too deeply
    | InvalidInput       // EINVAL: for instance reading a link that is not a symbolic link

  /** One constructor per variant of the source's `Error` enum. */
  datatype Error =
    | EnvUserNotFound
    | EnvHomeNotFound
    | NoCommandProvided
    | StandardInput
    | StdIo(kind: IoErrorKind)
    | FsExtra(cause: IoErrorKind)
    | SerdeYaml

  /** `Result<T, Error>` of the source. */
  datatype Result<+T> = Ok(value: T) | Err(error: Error)

  datatype Option<+T> = None | Some(value: T)
}
