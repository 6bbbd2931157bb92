/** The optional value shared by the CSP library and the game agent. */
module Options {

  datatype Option<T> = None | Some(value: T)
}
