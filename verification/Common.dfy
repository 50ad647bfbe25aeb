/** Types and constants that several components share. */
module Common {
  datatype Option<+T> = None | Some(value: T)

  type uint32 = x: nat | x < 0x1_0000_0000

  const MAX64: nat := 0xFFFF_FFFF_FFFF_FFFF
}
