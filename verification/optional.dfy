/** An optional value: the absence of a result where the page logic
    has nothing to return (no request issued, text that does not decode). */
module Optional {

  datatype Option<+T> = None | Some(value: T)
}
