/** Errors and the failure-carrying result types shared by the modules of
    this model. */
module Outcomes {

  /** A path as its components: `filepath.Join(p, name)` is `p + [name]`,
      and the empty path is the root. */
  type Path = seq<string>

  /** The errors the modelled operations return. */
  datatype Error =
    | NotExist(path: Path)               // stat or open of a missing path
    | NotDir(path: Path)                 // a path component is not a directory
    | IsDir(path: Path)                  // create or read of a directory
    | Denied(path: Path)                 // open refused, e.g. for lack of permission
    | NotRegular(path: Path)             // create over a link, device, socket or pipe
    | UnexpectedEof(path: Path)          // archive body shorter than its header says
    | UnhandledType(flag: char, name: Path)  // archive entry kind the restore does not know
    | ReadFailed(reason: string)         // a read error of a streamed body

  datatype Option<+T> = None | Some(value: T)

  datatype Result<+T> = Ok(value: T) | Err(error: Error)
}
