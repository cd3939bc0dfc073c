/** The usual Some/None wrapper, standing in for a C# reference that may be null. */
module Optional {

  datatype Option<+T> = None | Some(value: T)
}
