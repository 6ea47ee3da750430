/** Option and Result, and the run-aborting errors of the build tool. */
module Wrappers {

  datatype Option<+T> = None | Some(value: T)

  datatype Result<+T> = Success(value: T) | Failure(error: Error)

  /** Every condition that ends a run with exit code 1 (an exception that reaches `Main`). */
  datatype Error =
    | EmptyArgument                          // `str[0]` on an empty argument
    | UnknownOption(option: string)          // a dash argument other than -r / --recursive
    | NotFound(path: string)                 // a source argument that is neither file nor directory
    | ConfigParseFailed(configFile: string)  // the configuration file is not a list of config objects
    | NullConfigList(configFile: string)     // the configuration file holds the JSON literal null
    | NullConfigEntry(configFile: string)    // one entry of the configuration list is null
    | SrcNotStrings(configFile: string)      // `src` is neither a string nor an array of strings
    | ReadFailed(path: string)               // a selected source file does not exist
    | CompileFailed(path: string, message: string)
    | NoWorkingDirectory(path: string)       // directory-relative output with no working directory
    | DepthExceeded(directory: string)       // the walk went deeper than its depth budget
}
