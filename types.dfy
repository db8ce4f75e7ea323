/** Machine integer widths used by the helper, and a small Option type. */
module Types {

  /** `std::int32_t`: the width of the configuration fields. */
  type Int32 = x: int | -0x8000_0000 <= x < 0x8000_0000

  /** `std::uint64_t`: timestamps in milliseconds and binding handles. */
  type Uint64 = x: int | 0 <= x < 0x1_0000_0000_0000_0000

  type byte = x: int | 0 <= x < 256

  datatype Option<T> = None | Some(value: T)
}
