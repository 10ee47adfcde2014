/** The Some/None datatype used for partial results (a parse that fails,
    a search that finds nothing, a reading that is not a number). */
module Optional {

  datatype Option<+T> = None | Some(value: T)
}
