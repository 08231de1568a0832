/** Primitive types shared by the rest of the model: the terminal's coordinate
    type and the operations the program writes to standard output. */
module Term {

  /** Rust's `u16`, the type crossterm uses for columns and rows. */
  type U16 = x: int | 0 <= x <= 0xFFFF

  /** Rust's `u8`. */
  type U8 = x: int | 0 <= x <= 0xFF

  /** One operation on the standard-output stream, in the order the terminal
      receives it. `Put(x, y, text)` stands for the pair of queued commands
      `MoveTo(x, y)` followed by `PrintStyledContent(text)`. */
  datatype Op =
    | Clear                              // terminal::Clear(ClearType::All), executed at once
    | Put(x: U16, y: U16, text: string)  // cursor::MoveTo(x, y), then the styled text
    | Flush                              // stdout().flush()

  /** `std::cmp::min` on `u16`. */
  function Min(a: U16, b: U16): (m: U16)
    ensures m <= a && m <= b
    ensures m == a || m == b
  {
    if a <= b then a else b
  }
}
