/** Failure-carrying results shared by the model.
    `Option` is Rust's `Option`; `Result` stands for a computation that either
    finishes or stops the whole program at an `unwrap()`/`expect()` whose
    argument was `None` or `Err`. */
module Outcomes {

  datatype Option<T> = None | Some(value: T)

  /** Where the program panicked. */
  datatype Panic =
    | NoTrackPoint                      // `points.first()/last().unwrap()` on an empty segment
    | NoPointTime                       // `.time.unwrap()` on a first/last point without a time
    | NoMetadata                        // `gpx.metadata.unwrap()`
    | NoFileStem(path: string)          // `file_stem().unwrap()`
    | UnreadableEntry(path: string)     // `entry.unwrap()` / `File::open(..).unwrap()`
    | NoDateTimeField(path: string)     // `get_field(Tag::DateTime, false).unwrap()`
    | NoExtension(path: string)         // `extension().unwrap()`

  datatype Result<T> = Ok(value: T) | Abort(panic: Panic)
}
