/** java.util.Optional, as used by the environment lookup. */
module Optional {

  datatype Option<+T> = None | Some(value: T)
}
