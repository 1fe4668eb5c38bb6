/** Types that several components share. */
module Common {

  datatype Option<T> = None | Some(value: T)

  // The unsigned integers of C.
  type u32 = x: int | 0 <= x < 0x1_0000_0000
  type u64 = x: int | 0 <= x < 0x1_0000_0000_0000_0000
}
