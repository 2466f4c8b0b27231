/** Machine numbers and list surgery that several parts share. */
module Machine {

  type Byte = x: int | 0 <= x < 256
  type UInt32 = x: int | 0 <= x < 0x1_0000_0000

  function Pow2(n: nat): (p: nat)
    ensures p > 0
  {
    if n == 0 then 1 else 2 * Pow2(n - 1)
  }

  /** A sequence without its element k. */
  function Without<T>(s: seq<T>, k: nat): seq<T>
    requires k < |s|
  {
    s[..k] + s[k + 1..]
  }

  function Spaces(n: nat): (s: string)
    ensures |s| == n
  {
    seq(n, _ => ' ')
  }

  /** Bit k of a word, bit 0 being the least significant. */
  predicate Bit(w: nat, k: nat) {
    if k == 0 then w % 2 == 1 else Bit(w / 2, k - 1)
  }

  lemma MulLess(a: int, b: int, p: int)
    requires 0 <= a < b && 1 <= p
    ensures 0 <= a * p < b * p
  {
  }

  // The hexadecimal digits in order, in either case.
  const UPPER := "0123456789ABCDEF"
  const LOWER := "0123456789abcdef"

  lemma DigitAt(v: nat)
    requires v < 16
    ensures UPPER[v] == if v < 10 then '0' + v as char else 'A' + (v - 10) as char
    ensures LOWER[v] == if v < 10 then '0' + v as char else 'a' + (v - 10) as char
  {
  }
}
