/** Machine words, and values that may be missing. */
module Common {
  const WORD32 := 0x1_0000_0000
  const WORD64 := 0x1_0000_0000_0000_0000

  datatype Option<T> = None | Some(value: T)
}
