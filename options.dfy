/** The optional value the pipeline's lookups and scans return (Python's `None`). */
module Options {

  datatype Option<T> = None | Some(value: T)

}
