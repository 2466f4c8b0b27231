/** CRC-16 as the Modbus driver computes it: the residue of a framed message, and the bursts it always catches. */
module ModbusCrc {

  import opened Words

  type Octet = bv8

  const INITIAL: bv16 := 0xFFFF

  // ---------- the shift register ----------

  function Xor(a: bv16, b: bv16): bv16 {
    a ^ b
  }

  predicate Odd(c: bv16) {
    c & 1 != 0
  }

  function Half(c: bv16): bv16 {
    c >> 1
  }

  const POLYNOMIAL: bv16 := 0xA001

  /** One bit's worth of the inner loop. */
  function Shift(c: bv16): bv16 {
    if Odd(c) then Xor(Half(c), POLYNOMIAL) else Half(c)
  }

  lemma OddOfXor(a: bv16, b: bv16)
    ensures Odd(Xor(a, b)) <==> Odd(a) != Odd(b)
  {
  }

  lemma HalfOfXor(a: bv16, b: bv16)
    ensures Half(Xor(a, b)) == Xor(Half(a), Half(b))
  {
  }

  lemma XorAssoc(a: bv16, b: bv16, c: bv16)
    ensures Xor(a, Xor(b, c)) == Xor(Xor(a, b), c)
  {
  }

  lemma XorCommutes(a: bv16, b: bv16)
    ensures Xor(a, b) == Xor(b, a)
  {
  }

  lemma XorZero(a: bv16)
    ensures Xor(a, 0) == a && Xor(a, a) == 0
  {
  }

  lemma XorSwap(a: bv16, b: bv16, c: bv16, d: bv16)
    ensures Xor(Xor(a, b), Xor(c, d)) == Xor(Xor(a, c), Xor(b, d))
  {
    hide Xor;
    XorAssoc(Xor(a, b), c, d);
    XorAssoc(a, b, c);
    XorCommutes(b, c);
    XorAssoc(a, c, b);
    XorAssoc(Xor(a, c), b, d);
  }

  lemma XorOfShifted(a: bv16, b: bv16, p: bv16)
    ensures Xor(Xor(a, p), Xor(b, p)) == Xor(a, b)
    ensures Xor(Xor(a, p), b) == Xor(Xor(a, b), p)
    ensures Xor(a, Xor(b, p)) == Xor(Xor(a, b), p)
  {
    hide Xor;
    XorSwap(a, p, b, p);
    XorZero(p);
    XorZero(Xor(a, b));
    XorAssoc(a, p, b);
    XorCommutes(p, b);
    XorAssoc(a, b, p);
  }

  lemma ShiftXor(a: bv16, b: bv16)
    ensures Shift(Xor(a, b)) == Xor(Shift(a), Shift(b))
  {
    hide Xor, Odd, Half;
    OddOfXor(a, b);
    HalfOfXor(a, b);
    XorOfShifted(Half(a), Half(b), POLYNOMIAL);
  }

  function Unshift(c: bv16): bv16 {
    if c & 0x8000 != 0 then ((c ^ 0xA001) << 1) | 1 else c << 1
  }

  lemma UnshiftUndoes(c: bv16)
    ensures Unshift(Shift(c)) == c
  {
  }

  lemma ShiftKeepsNonzero(c: bv16)
    ensures Shift(c) == 0 <==> c == 0
  {
    UnshiftUndoes(c);
  }

  function Times(c: bv16, k: nat): bv16
    decreases k
  {
    if k == 0 then c else Shift(Times(c, k - 1))
  }

  lemma {:induction false} TimesXor(a: bv16, b: bv16, k: nat)
    ensures Times(Xor(a, b), k) == Xor(Times(a, k), Times(b, k))
    decreases k
  {
    hide Shift, Xor;
    if k > 0 {
      TimesXor(a, b, k - 1);
      ShiftXor(Times(a, k - 1), Times(b, k - 1));
    }
  }

  lemma {:induction false} TimesKeepsNonzero(c: bv16, k: nat)
    ensures Times(c, k) == 0 <==> c == 0
    decreases k
  {
    hide Shift;
    if k > 0 {
      TimesKeepsNonzero(c, k - 1);
      ShiftKeepsNonzero(Times(c, k - 1));
    }
  }

  /** c moved k places up. */
  function Up(c: bv16, k: nat): bv16
    decreases k
  {
    if k == 0 then c else Up(c << 1, k - 1)
  }

  /** The k highest bits of c are clear. */
  predicate Fits(c: bv16, k: nat)
    decreases k
  {
    k == 0 || (c & 0x8000 == 0 && Fits(c << 1, k - 1))
  }

  lemma ShiftAfterUp(c: bv16)
    requires c & 0x8000 == 0
    ensures Shift(c << 1) == c
  {
  }

  lemma {:induction false} TimesAfterUp(c: bv16, k: nat)
    requires Fits(c, k)
    ensures Times(Up(c, k), k) == c
    decreases k
  {
    hide Shift;
    if k > 0 {
      TimesAfterUp(c << 1, k - 1);
      ShiftAfterUp(c);
    }
  }

  lemma {:induction false} UpIsEven(c: bv16, k: nat)
    requires c & 1 == 0
    ensures Up(c, k) & 1 == 0
    decreases k
  {
    if k > 0 {
      UpIsEven(c << 1, k - 1);
    }
  }

  // ---------- messages, by bytes and by bits ----------

  function Widen(b: Octet): bv16 {
    b as bv16
  }

  /** The register after the first n bytes. */
  function Crc(m: seq<Octet>, n: nat): bv16
    requires n <= |m|
  {
    if n == 0 then INITIAL else Times(Xor(Crc(m, n - 1), Widen(m[n - 1])), 8)
  }

  /** Bit k of a byte, as a number; bit 0 goes first on the line. */
  function BitIn(b: Octet, k: nat): bv16
    decreases k
  {
    if k == 0 then Widen(b & 1) else BitIn(b >> 1, k - 1)
  }

  function BitOf(m: seq<Octet>, k: nat): bv16
    requires k < 8 * |m|
  {
    BitIn(m[k / 8], k % 8)
  }

  lemma {:induction false} BitIsZeroOrOne(b: Octet, k: nat)
    ensures BitIn(b, k) == 0 || BitIn(b, k) == 1
    decreases k
  {
    if k > 0 {
      BitIsZeroOrOne(b >> 1, k - 1);
    }
  }

  lemma BitIsBit(m: seq<Octet>, k: nat)
    requires k < 8 * |m|
    ensures BitOf(m, k) == 0 || BitOf(m, k) == 1
  {
    BitIsZeroOrOne(m[k / 8], k % 8);
  }

  /** The register after the first k bits, fed one at a time. */
  function BitCrc(m: seq<Octet>, k: nat): bv16
    requires k <= 8 * |m|
  {
    if k == 0 then INITIAL else Shift(Xor(BitCrc(m, k - 1), BitOf(m, k - 1)))
  }

  lemma LowBitApart(b: Octet)
    ensures Widen(b) == Xor(BitIn(b, 0), Widen(b >> 1) << 1)
    ensures Widen(b >> 1) & 0x8000 == 0
  {
  }

  lemma OneBitAhead(c: bv16, b: Octet)
    ensures Shift(Xor(c, Widen(b))) == Xor(Shift(Xor(c, BitIn(b, 0))), Widen(b >> 1))
  {
    LowBitApart(b);
    var rest := Widen(b >> 1);
    ShiftAfterUp(rest);
    hide Xor, Shift, Widen, BitIn;
    XorAssoc(c, BitIn(b, 0), rest << 1);
    ShiftXor(Xor(c, BitIn(b, 0)), rest << 1);
  }

  /** A byte without its j lowest bits, moved down. */
  function Rest(b: Octet, j: nat): Octet
    decreases j
  {
    if j == 0 then b else Rest(b, j - 1) >> 1
  }

  lemma {:induction false} BitOfRest(b: Octet, j: nat, k: nat)
    ensures BitIn(Rest(b, j), k) == BitIn(b, j + k)
    decreases j
  {
    if j > 0 {
      BitOfRest(b, j - 1, k + 1);
    }
  }

  lemma NothingLeft(b: Octet)
    ensures Widen(Rest(b, 8)) == 0
  {
    var b4 := Rest(b, 4);
    assert b4 == b >> 1 >> 1 >> 1 >> 1 by {
      assert Rest(b, 2) == b >> 1 >> 1;
    }
    assert Rest(b, 8) == b4 >> 1 >> 1 >> 1 >> 1 by {
      assert Rest(b, 6) == b4 >> 1 >> 1;
    }
  }

  /** Part way through a byte, the nested loop is ahead of the bit-serial register by the bits to come. */
  lemma {:induction false} PartOfByte(m: seq<Octet>, n: nat, j: nat)
    requires n < |m| && j <= 8 && Crc(m, n) == BitCrc(m, 8 * n)
    ensures Times(Xor(Crc(m, n), Widen(m[n])), j) == Xor(BitCrc(m, 8 * n + j), Widen(Rest(m[n], j)))
    decreases j
  {
    hide Shift, Xor, Widen, BitIn;
    if j > 0 {
      PartOfByte(m, n, j - 1);
      var k := 8 * n + j - 1;
      assert k / 8 == n && k % 8 == j - 1;
      OneBitAhead(BitCrc(m, k), Rest(m[n], j - 1));
      BitOfRest(m[n], j - 1, 0);
    }
  }

  /** The nested loops compute the bit-serial register. */
  lemma {:induction false} BytesAreBits(m: seq<Octet>, n: nat)
    requires n <= |m|
    ensures Crc(m, n) == BitCrc(m, 8 * n)
    decreases n
  {
    hide Shift, Xor, Widen, BitOf, Times, Rest;
    if n > 0 {
      BytesAreBits(m, n - 1);
      PartOfByte(m, n - 1, 8);
      NothingLeft(m[n - 1]);
      XorZero(BitCrc(m, 8 * n));
    }
  }

  // ---------- bursts ----------

  /** Two registers fed different messages differ by the register fed the difference, from zero. */
  function Diff(a: seq<Octet>, b: seq<Octet>, k: nat): bv16
    requires |a| == |b| && k <= 8 * |a|
  {
    if k == 0 then 0 else Shift(Xor(Diff(a, b, k - 1), Xor(BitOf(a, k - 1), BitOf(b, k - 1))))
  }

  lemma {:induction false} DiffIsXor(a: seq<Octet>, b: seq<Octet>, k: nat)
    requires |a| == |b| && k <= 8 * |a|
    ensures Diff(a, b, k) == Xor(BitCrc(a, k), BitCrc(b, k))
  {
    hide Shift, Xor, BitOf;
    if k == 0 {
      XorZero(INITIAL);
    } else {
      DiffIsXor(a, b, k - 1);
      var ca, cb, ba, bb := BitCrc(a, k - 1), BitCrc(b, k - 1), BitOf(a, k - 1), BitOf(b, k - 1);
      XorSwap(ca, cb, ba, bb);
      ShiftXor(Xor(ca, ba), Xor(cb, bb));
    }
  }

  predicate SameBit(a: seq<Octet>, b: seq<Octet>, k: nat)
    requires |a| == |b| && k < 8 * |a|
  {
    BitOf(a, k) == BitOf(b, k)
  }

  lemma {:induction false} NoDiffYet(a: seq<Octet>, b: seq<Octet>, k: nat)
    requires |a| == |b| && k <= 8 * |a|
    requires forall t: nat :: t < k ==> SameBit(a, b, t)
    ensures Diff(a, b, k) == 0
  {
    if k > 0 {
      NoDiffYet(a, b, k - 1);
      assert SameBit(a, b, k - 1);
      ShiftKeepsNonzero(0);
      XorZero(BitOf(a, k - 1));
      XorZero(0);
    }
  }

  lemma {:induction false} DiffStays(a: seq<Octet>, b: seq<Octet>, from: nat, k: nat)
    requires |a| == |b| && from <= k <= 8 * |a| && Diff(a, b, from) != 0
    requires forall t: nat :: from <= t < k ==> SameBit(a, b, t)
    ensures Diff(a, b, k) != 0
  {
    if from < k {
      DiffStays(a, b, from, k - 1);
      assert SameBit(a, b, k - 1);
      ShiftKeepsNonzero(Diff(a, b, k - 1));
      XorZero(BitOf(a, k - 1));
      XorZero(Diff(a, b, k - 1));
    }
  }

  lemma OneFits(k: nat)
    requires k <= 15
    ensures Fits(0, k) && Fits(1, k)
  {
    FitsZero(k);
    assert Fits(0x4000, 1);
    assert Fits(0x2000, 2);
    assert Fits(0x1000, 3);
    assert Fits(0x800, 4);
    assert Fits(0x400, 5);
    assert Fits(0x200, 6);
    assert Fits(0x100, 7);
    assert Fits(0x80, 8);
    assert Fits(0x40, 9);
    assert Fits(0x20, 10);
    assert Fits(0x10, 11);
    assert Fits(0x8, 12);
    assert Fits(0x4, 13);
    assert Fits(0x2, 14);
    assert Fits(0x1, 15);
    FitsLess(1, 15, k);
  }

  lemma {:induction false} FitsLess(c: bv16, k: nat, j: nat)
    requires Fits(c, k) && j <= k
    ensures Fits(c, j)
    decreases k
  {
    if j > 0 {
      FitsLess(c << 1, k - 1, j - 1);
    }
  }

  lemma {:induction false} FitsZero(k: nat)
    ensures Fits(0, k)
  {
    if k > 0 {
      FitsZero(k - 1);
    }
  }

  /** The first wrong bit, at q, is still in the register j bits later. */
  lemma {:induction false} BurstInRegister(a: seq<Octet>, b: seq<Octet>, q: nat, j: nat) returns (p: bv16)
    requires |a| == |b| && 1 <= j <= 16 && q + j <= 8 * |a|
    requires forall t: nat :: t < q ==> SameBit(a, b, t)
    requires !SameBit(a, b, q)
    ensures p & 1 == 1 && Diff(a, b, q + j) == Times(p, j)
  {
    var k := q + j - 1;
    var ba, bb := BitOf(a, k), BitOf(b, k);
    BitIsBit(a, k);
    BitIsBit(b, k);
    hide Shift, BitOf, Xor, Fits, Up;
    if j == 1 {
      NoDiffYet(a, b, q);
      p := 1;
      XorOfBits(ba, bb);
      XorZero(1);
      assert Times(1, 1) == Shift(Times(1, 0));
    } else {
      var p' := BurstInRegister(a, b, q, j - 1);
      var e := Xor(ba, bb);
      XorOfBits(ba, bb);
      p := Xor(p', Up(e, j - 1));
      OneFits(j - 1);
      TimesAfterUp(e, j - 1);
      TimesXor(p', Up(e, j - 1), j - 1);
      UpKeepsLowBit(p', e, j - 1);
    }
  }

  lemma XorOfBits(a: bv16, b: bv16)
    requires (a == 0 || a == 1) && (b == 0 || b == 1)
    ensures Xor(a, b) == (if a == b then 0 else 1) && Xor(0, 1) == 1
  {
  }

  lemma UpKeepsLowBit(p: bv16, e: bv16, k: nat)
    requires k > 0 && p & 1 == 1
    ensures Xor(p, Up(e, k)) & 1 == 1
  {
    assert Up(e, k) == Up(e << 1, k - 1);
    UpIsEven(e << 1, k - 1);
    LowBitOfXor(p, Up(e, k));
  }

  lemma LowBitOfXor(a: bv16, b: bv16)
    requires a & 1 == 1 && b & 1 == 0
    ensures Xor(a, b) & 1 == 1
  {
  }

  predicate Within(a: seq<Octet>, b: seq<Octet>, q: nat)
    requires |a| == |b|
  {
    forall k: nat :: k < 8 * |a| && !SameBit(a, b, k) ==> q <= k < q + 16
  }

  lemma FirstWrongBit(a: seq<Octet>, b: seq<Octet>) returns (q: nat)
    requires |a| == |b| && a != b
    ensures q < 8 * |a| && !SameBit(a, b, q) && forall t: nat :: t < q ==> SameBit(a, b, t)
  {
    q := 0;
    while q < 8 * |a| && SameBit(a, b, q)
      invariant q <= 8 * |a| && forall t: nat :: t < q ==> SameBit(a, b, t)
    {
      q := q + 1;
    }
    if q == 8 * |a| {
      forall i: nat | i < |a|
        ensures a[i] == b[i]
      {
        forall j: nat | j < 8
          ensures BitIn(a[i], j) == BitIn(b[i], j)
        {
          assert SameBit(a, b, 8 * i + j) && (8 * i + j) / 8 == i && (8 * i + j) % 8 == j;
        }
        SameBits(a[i], b[i]);
      }
      assert false;
    }
  }

  lemma SameBits(a: Octet, b: Octet)
    requires forall j: nat :: j < 8 ==> BitIn(a, j) == BitIn(b, j)
    ensures a == b
  {
    SameRest(a, b, 0);
  }

  lemma {:induction false} SameRest(a: Octet, b: Octet, j: nat)
    requires j <= 8 && forall j: nat :: j < 8 ==> BitIn(a, j) == BitIn(b, j)
    ensures Rest(a, j) == Rest(b, j)
    decreases 8 - j
  {
    if j == 8 {
      NothingLeft(a);
      NothingLeft(b);
    } else {
      SameRest(a, b, j + 1);
      BitOfRest(a, j, 0);
      BitOfRest(b, j, 0);
      assert BitIn(a, j) == BitIn(b, j);
      SameByte(Rest(a, j), Rest(b, j));
    }
  }

  lemma SameByte(a: Octet, b: Octet)
    requires Widen(a & 1) == Widen(b & 1) && a >> 1 == b >> 1
    ensures a == b
  {
  }

  /** Any burst of up to sixteen bits, wherever it falls, changes the CRC. */
  lemma BurstIsDetected(a: seq<Octet>, b: seq<Octet>, q: nat)
    requires |a| == |b| && a != b && Within(a, b, q)
    ensures Crc(a, |a|) != Crc(b, |b|)
  {
    hide Shift, Xor, BitOf, SameBit, Times;
    var first := FirstWrongBit(a, b);
    var bits := 8 * |a|;
    var j := if first + 16 <= bits then 16 else bits - first;
    var p := BurstInRegister(a, b, first, j);
    TimesKeepsNonzero(p, j);
    DiffStays(a, b, first + j, bits);
    DiffIsXor(a, b, bits);
    BytesAreBits(a, |a|);
    BytesAreBits(b, |b|);
    XorZero(BitCrc(a, bits));
  }

  // ---------- the residue ----------

  lemma XorOfHalves(c: bv16)
    ensures c == Xor(Widen(Low(c)), Widen(High(c)) << 8)
  {
  }

  lemma LowOf(lo: Octet, hi: Octet)
    ensures Low(Xor(Widen(lo), Widen(hi) << 8)) == lo
  {
  }

  lemma HighOf(lo: Octet, hi: Octet)
    ensures High(Xor(Widen(lo), Widen(hi) << 8)) == hi
  {
  }

  lemma UpTwo(c: bv16, k: nat)
    ensures Up(c, k + 2) == Up(c << 2, k)
    ensures c & 0xC000 == 0 && Fits(c << 2, k) ==> Fits(c, k + 2)
  {
    TwoPlaces(c);
    assert Up(c, k + 2) == Up(c << 1, k + 1) == Up(c << 1 << 1, k);
    assert Fits(c, k + 2) == (c & 0x8000 == 0 && Fits(c << 1, k + 1));
  }

  lemma TwoPlaces(c: bv16)
    ensures c << 1 << 1 == c << 2
    ensures c & 0xC000 == 0 ==> c & 0x8000 == 0 && (c << 1) & 0x8000 == 0
  {
  }

  lemma EightPlaces(b: Octet)
    ensures var c := Widen(b);
            && c & 0xC000 == 0 && (c << 2) & 0xC000 == 0 && (c << 4) & 0xC000 == 0 && (c << 6) & 0xC000 == 0
            && c << 2 << 2 == c << 4 && c << 4 << 2 == c << 6 && c << 6 << 2 == c << 8
  {
  }

  lemma UpEight(b: Octet)
    ensures Times(Widen(b) << 8, 8) == Widen(b)
  {
    hide Widen, Up, Fits, Shift, Times;
    var c := Widen(b);
    EightPlaces(b);
    UpTwo(c, 6);
    UpTwo(c << 2, 4);
    UpTwo(c << 4, 2);
    UpTwo(c << 6, 0);
    UpNone(c << 8);
    TimesAfterUp(c, 8);
  }

  lemma UpNone(c: bv16)
    ensures Up(c, 0) == c && Fits(c, 0)
  {
  }

  lemma TwoBytesCancel(c: bv16, lo: Octet, hi: Octet)
    ensures Times(Xor(Times(Xor(c, Widen(lo)), 8), Widen(hi)), 8) == 0 <==> lo == Low(c) && hi == High(c)
  {
    hide Xor, Shift, Widen, Low, High, Times;
    var up := Widen(hi) << 8;
    var tail := Xor(Widen(lo), up);
    UpEight(hi);
    TimesXor(Xor(c, Widen(lo)), up, 8);
    XorAssoc(c, Widen(lo), up);
    TimesKeepsNonzero(Xor(c, tail), 8);
    TimesKeepsNonzero(Times(Xor(c, tail), 8), 8);
    XorIsZero(c, tail);
    XorOfHalves(c);
    LowOf(lo, hi);
    HighOf(lo, hi);
  }

  lemma TwoMoreBytes(m: seq<Octet>, lo: Octet, hi: Octet)
    ensures Crc(m + [lo, hi], |m| + 2) == Times(Xor(Times(Xor(Crc(m, |m|), Widen(lo)), 8), Widen(hi)), 8)
  {
    hide Xor, Widen, Times;
    var framed := m + [lo, hi];
    SamePrefix(m, framed, |m|);
    assert framed[|m|] == lo && framed[|m| + 1] == hi;
  }

  /** A message and the two bytes after it have CRC 0 exactly when the bytes are the message's CRC, low byte first. */
  lemma ResidueIsZeroIff(m: seq<Octet>, lo: Octet, hi: Octet)
    ensures Crc(m + [lo, hi], |m| + 2) == 0 <==> lo == Low(Crc(m, |m|)) && hi == High(Crc(m, |m|))
  {
    hide Xor, Crc, Widen, Low, High, Times;
    TwoMoreBytes(m, lo, hi);
    TwoBytesCancel(Crc(m, |m|), lo, hi);
  }

  lemma XorIsZero(a: bv16, b: bv16)
    ensures Xor(a, b) == 0 <==> a == b
  {
    hide Xor;
    XorAssoc(a, b, b);
    XorZero(a);
    XorZero(b);
    XorCommutes(0, b);
  }

  lemma {:induction false} SamePrefix(a: seq<Octet>, b: seq<Octet>, n: nat)
    requires n <= |a| && n <= |b| && a[..n] == b[..n]
    ensures Crc(a, n) == Crc(b, n)
  {
    if n > 0 {
      assert a[n - 1] == a[..n][n - 1] == b[n - 1];
      assert a[..n - 1] == a[..n][..n - 1] == b[..n - 1];
      SamePrefix(a, b, n - 1);
    }
  }

  // ---------- a known value ----------

  lemma FirstExampleByte()
    ensures Times(0xFFFD, 8) == 0x813E
  {
    assert Times(0xFFFD, 0) == 0xFFFD;
    assert Times(0xFFFD, 1) == 0xDFFF;
    assert Times(0xFFFD, 2) == 0xCFFE;
    assert Times(0xFFFD, 3) == 0x67FF;
    assert Times(0xFFFD, 4) == 0x93FE;
    assert Times(0xFFFD, 5) == 0x49FF;
    assert Times(0xFFFD, 6) == 0x84FE;
    assert Times(0xFFFD, 7) == 0x427F;
  }

  lemma SecondExampleByte()
    ensures Times(0x8139, 8) == 0x1241
  {
    assert Times(0x8139, 0) == 0x8139;
    assert Times(0x8139, 1) == 0xE09D;
    assert Times(0x8139, 2) == 0xD04F;
    assert Times(0x8139, 3) == 0xC826;
    assert Times(0x8139, 4) == 0x6413;
    assert Times(0x8139, 5) == 0x9208;
    assert Times(0x8139, 6) == 0x4904;
    assert Times(0x8139, 7) == 0x2482;
  }

  /** The worked example of section 6.2.2 of MODBUS over Serial Line V1.02: the message 02 07 has CRC 1241. */
  lemma StandardExample(m: seq<Octet>)
    requires m == [0x02, 0x07]
    ensures Crc(m, 2) == 0x1241
  {
    FirstExampleByte();
    SecondExampleByte();
    hide Times;
    assert Xor(INITIAL, Widen(0x02)) == 0xFFFD && Xor(0x813E, Widen(0x07)) == 0x8139;
    assert Crc(m, 0) == INITIAL;
    assert Crc(m, 1) == 0x813E;
  }
}
