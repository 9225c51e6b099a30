/** The optional value shared by the modules: `undefined` (or a missing result) versus a
    present value. */
module Optional {
  datatype Option<+T> = None | Some(value: T)
}
