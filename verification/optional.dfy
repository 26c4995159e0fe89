/** The optional value used wherever the JavaScript source has `null`,
    `undefined` or "not found". */
module Optional {

  datatype Option<+T> = None | Some(value: T)
}
