/** What several models share: optional values, the two ways a kernel operation can end, the address space. */
module Common {

  datatype Option<T> = None | Some(value: T)

  /** Abort stands for kabort. */
  datatype Outcome = Done | Abort

  /** Addresses have 48 bits. */
  const ADDRESS_LIMIT: nat := 0x1_0000_0000_0000
}
