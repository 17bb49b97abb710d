/** An optional value, used wherever the modelled code may hand back NULL or "nothing". */
module Options {

  datatype Option<+T> = None | Some(value: T)
}
