/** Fixed-width numbers and the optional value shared by every part of the model. */
module Machine {
  type u8 = x: int | 0 <= x < 0x100
  type u16 = x: int | 0 <= x < 0x1_0000

  /** A sum or difference of two 16-bit numbers, stored in 16 bits. */
  function Wrap16(x: int): (r: u16)
    requires -0x1_0000 <= x < 0x2_0000
    ensures r == x % 0x1_0000
  {
    if x < 0 then x + 0x1_0000 else if x < 0x1_0000 then x else x - 0x1_0000
  }

  /** Where a segment and an offset point. */
  function AbsMemory(seg: u16, off: u16): nat {
    seg * 0x10 + off as int
  }

  datatype Option<+T> = None | Some(value: T)
}
