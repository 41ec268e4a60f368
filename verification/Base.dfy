/** Small types shared by every module. */
module Base {

  /** One UTF-16 code unit (Rust's u16). */
  type U16 = x: int | 0 <= x < 0x1_0000

  /** Text is a finite sequence of code units; nothing requires it to be valid UTF-16. */
  type Text = seq<U16>

  datatype Option<+T> = None | Some(value: T)
}
