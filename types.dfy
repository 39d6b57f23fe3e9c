/** The C integer types of the model and an optional value. */
module Types {

  /** `unsigned char` / `uint8_t`. */
  type u8 = x: int | 0 <= x < 0x100
  /** `unsigned short` / `uint16_t`. */
  type u16 = x: int | 0 <= x < 0x1_0000
  /** `unsigned int` on the 32-bit target. */
  type u32 = x: int | 0 <= x < 0x1_0000_0000

  datatype Option<T> = None | Some(value: T)
}
