/** The Some/None datatype used where the scraper reads a value that may be absent
    (a Python `None`, a missing attribute). */
module Wrappers {

  datatype Option<+T> = None | Some(value: T)
}
