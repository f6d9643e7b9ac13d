/** Unsigned 64-bit words with the saturating operations of Rust's `u64`. */
module U64 {
  const LIMIT := 0x1_0000_0000_0000_0000

  newtype u64 = x: int | 0 <= x < LIMIT

  const MAX: u64 := (LIMIT - 1) as u64

  function SatAdd(a: u64, b: u64): u64 {
    var r := a as int + b as int;
    if r < LIMIT then r as u64 else MAX
  }

  function SatMul(a: u64, b: u64): (r: u64) {
    var r := a as int * b as int;
    ProductSign(a as int, b as int);
    if r < LIMIT then r as u64 else MAX
  }

  function SatSub(a: u64, b: u64): u64 {
    if a >= b then a - b else 0
  }

  lemma ProductSign(a: int, b: int)
    requires a >= 0 && b >= 0
    ensures a * b >= 0
  {
  }
}
