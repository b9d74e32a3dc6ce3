/** A value that may be absent: JavaScript's `undefined`/`null` and the
    places where the script would throw on a missing value. */
module Optional {

  datatype Option<+T> = None | Some(value: T)
}
