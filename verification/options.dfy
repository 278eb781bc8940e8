/** The optional value used for regex match results and for the scanner's
    "active filename", whose absent case is Python's `None`. */
module Options {

  datatype Option<+T> = None | Some(value: T)
}
