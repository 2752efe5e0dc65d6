/** The `None`-or-value wrapper used wherever the Python code returns or stores `None`. */
module Optional {

  datatype Option<+T> = None | Some(value: T)
}
