/** Values shared by the whole model: C addresses and nullable values. */
module Base {

  /** A C pointer value. Addresses are unbounded naturals; 0 is NULL. */
  type Addr = nat

  const NULL: Addr := 0

  /** A value that may be absent, used for C strings that may be NULL. */
  datatype Option<+T> = None | Some(value: T)
}
