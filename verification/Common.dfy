/** Widths, bytes and optional values shared by every module of the model. */
module Common {
  const U64_MAX: nat := 0xffff_ffff_ffff_ffff
  const MAX_VARINT: nat := 0x3fff_ffff_ffff_ffff

  /** An unsigned 64-bit integer. */
  type u64 = x: int | 0 <= x <= U64_MAX

  /** One octet. */
  type byte = b: int | 0 <= b < 256

  datatype Option<+T> = None | Some(value: T)

  /** The packet number spaces of a connection. */
  datatype Space = InitialSpace | HandshakeSpace | AppSpace

  function Max(a: int, b: int): int {
    if a < b then b else a
  }

  function Min(a: int, b: int): int {
    if b < a then b else a
  }
}
