/** A value that may be absent: a JavaScript field that is `undefined`, or a
    regular-expression match that found nothing. */
module Wrappers {

  datatype Option<+T> = None | Some(value: T)
}
