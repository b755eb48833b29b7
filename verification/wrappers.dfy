/** The optional value used where the page's code either produces something
    or returns early with nothing (a dropped line, a refused export, a
    malformed CSV text). */
module Wrappers {

  datatype Option<+T> = None | Some(value: T)

}
