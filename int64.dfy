/**
 Go's `int64` and the two's-complement subtraction the due check performs on it:
 `time.Now().Unix() - nt.Unix()` wraps around on overflow instead of failing.
 */
module GoInt {

  const MinInt64: int := -0x8000_0000_0000_0000
  const MaxInt64: int := 0x7fff_ffff_ffff_ffff
  const Modulus: int := 0x1_0000_0000_0000_0000

  newtype int64 = x: int | -0x8000_0000_0000_0000 <= x < 0x8000_0000_0000_0000

  predicate InRange(x: int) {
    MinInt64 <= x <= MaxInt64
  }

  /** `a - b` as Go computes it on int64: the mathematical difference reduced into range modulo 2^64. */
  function Sub64(a: int64, b: int64): (r: int64)
    ensures InRange(a as int - b as int) ==> r as int == a as int - b as int
    ensures (a as int - b as int) - r as int in {-Modulus, 0, Modulus}
  {
    var d := a as int - b as int;
    if d > MaxInt64 then (d - Modulus) as int64
    else if d < MinInt64 then (d + Modulus) as int64
    else d as int64
  }
}
