/** Sixteen-bit words as numbers: their two bytes are quotient and remainder by 256. */
module Words {

  /** A 16-bit number from its high and its low byte. */
  function BigEndian(hi: bv8, lo: bv8): bv16 {
    ((hi as bv16) << 8) | (lo as bv16)
  }

  lemma Joined(hi: bv8, lo: bv8)
    ensures (((hi as bv16) << 8) | (lo as bv16)) as int == 256 * (hi as int) + (lo as int)
  {
  }

  lemma BigEndianIsSum(hi: bv8, lo: bv8)
    ensures Number(BigEndian(hi, lo)) == 256 * ByteNumber(hi) + ByteNumber(lo)
  {
    Joined(hi, lo);
  }

  lemma Split(x: bv16)
    ensures x == BigEndian((x >> 8) as bv8, (x & 0x00FF) as bv8)
  {
  }

  lemma SameByteNumber(a: bv8, b: bv8)
    requires a as int == b as int
    ensures a == b
  {
  }

  lemma OneMore(b: bv8)
    requires b as int < 255
    ensures (b + 1) as int == b as int + 1
  {
  }

  /** The byte with value k. */
  function ByteOf(k: nat): (b: bv8)
    requires k < 256
    ensures b as int == k
  {
    if k == 0 then 0
    else
      OneMore(ByteOf(k - 1));
      ByteOf(k - 1) + 1
  }

  lemma QuotientAndRemainder(x: int, hi: int, lo: int)
    requires x == 256 * hi + lo && 0 <= lo < 256
    ensures hi == x / 256 && lo == x % 256
  {
  }

  lemma Halves(x: bv16)
    ensures x as int == 256 * (((x >> 8) as bv8) as int) + (((x & 0x00FF) as bv8) as int)
  {
    Split(x);
    Joined((x >> 8) as bv8, (x & 0x00FF) as bv8);
  }

  /** In terms of functions that are not looked into, so that numbers and bits do not mix. */
  function Number(x: bv16): (n: nat)
    ensures n == x as int
  {
    x as int
  }

  function ByteNumber(b: bv8): (n: nat)
    ensures n < 256 && n == b as int
  {
    b as int
  }

  function High(x: bv16): bv8 {
    (x >> 8) as bv8
  }

  function Low(x: bv16): bv8 {
    (x & 0x00FF) as bv8
  }

  lemma NumberOfHalves(x: bv16)
    ensures Number(x) == 256 * ByteNumber(High(x)) + ByteNumber(Low(x))
  {
    Halves(x);
  }

  lemma HalvesAre(x: bv16)
    ensures ByteNumber(High(x)) == Number(x) / 256 && ByteNumber(Low(x)) == Number(x) % 256
  {
    NumberOfHalves(x);
    var n, hi, lo := Number(x), ByteNumber(High(x)), ByteNumber(Low(x));
    hide *;
    QuotientAndRemainder(n, hi, lo);
  }
}
