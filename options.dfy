/** An optional value: the `null`-or-value results of the server's
    functions and the failures of its filesystem calls. */
module Options {

  datatype Option<T> = None | Some(value: T)
}
