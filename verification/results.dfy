/** Optional values, results that carry either a value or the exception the
    original program would raise, and those exceptions. */
module Results {

  datatype Option<+T> = None | Some(value: T)

  datatype Result<+T, +E> = Success(value: T) | Failure(error: E)

  /** The exceptions that end a run of the program. */
  datatype Fault =
    | KeyMissing(code: string)             // KeyError from `foundAirports[airport]`
    | LibraryMissing(folder: string)       // the bare `raise (Exception)` of FSX.py line 31
    | CopyFailed(code: string, dir: string) // an I/O error escaping `shutil.copy`
    | EncodeError(text: string)            // UnicodeEncodeError from `str()` of a non-ASCII `unicode`
}
