/** Rust primitive types and the standard `Option`, as the model of the
    hedgehog harness uses them. Integer widths are those of a 64-bit target. */
module RustTypes {

  /** `std::option::Option`. */
  datatype Option<+T> = None | Some(value: T)

  const U32_MAX: int := 0xffff_ffff
  const U64_MAX: int := 0xffff_ffff_ffff_ffff
  /** `usize::MAX` on a 64-bit target. */
  const USIZE_MAX: int := 0xffff_ffff_ffff_ffff
  /** `isize::MAX`: a `Vec` never holds more elements than this. */
  const ISIZE_MAX: int := 0x7fff_ffff_ffff_ffff

  newtype u32 = x: int | 0 <= x <= U32_MAX
  newtype u64 = x: int | 0 <= x <= U64_MAX
}
