/** The fixed-point field of the NMEA scanner: a decimal read into a 32-bit value and scale. */
module NmeaFixed {

  const INT32_MAX := 0x7FFF_FFFF

  /** What a 32-bit two's complement variable holds after x is assigned to it. */
  function Wrap32(x: int): (w: int)
    ensures -INT32_MAX - 1 <= w <= INT32_MAX
    ensures -INT32_MAX - 1 <= x <= INT32_MAX ==> w == x
  {
    (x + 0x8000_0000) % 0x1_0000_0000 - 0x8000_0000
  }

  predicate IsDigit(c: char) {
    '0' <= c <= '9'
  }

  function Digit(c: char): (d: int)
    requires IsDigit(c)
    ensures 0 <= d <= 9
  {
    c as int - '0' as int
  }

  /** The loop's variables: value -1 means no digit yet, scale 0 no decimal point yet. */
  datatype Fix = Bad | Fix(sign: int, value: int, scale: int)

  const START := Fix(0, -1, 0)

  /** One character; done says that the loop stops with the digits it has. */
  function FixStep(st: Fix, c: char): (r: (Fix, bool))
    requires st.Fix? && -1 <= st.value <= INT32_MAX
    ensures r.0.Fix? ==> -1 <= r.0.value <= INT32_MAX && (st.scale <= INT32_MAX ==> r.0.scale <= INT32_MAX)
  {
    if c == '+' && st.sign == 0 && st.value == -1 then (st.(sign := 1), false)
    else if c == '-' && st.sign == 0 && st.value == -1 then (st.(sign := -1), false)
    else if IsDigit(c) then
      var v := if st.value == -1 then 0 else st.value;
      if v > (INT32_MAX - Digit(c)) / 10 then
        if st.scale != 0 then (st, true) else (Bad, true)
      else
        (Fix(st.sign, 10 * v + Digit(c), if st.scale != 0 then Wrap32(st.scale * 10) else 0), false)
    else if c == '.' && st.scale == 0 then (st.(scale := 1), false)
    else if c == ' ' then
      if st.sign != 0 || st.value != -1 || st.scale != 0 then (Bad, true) else (st, false)
    else (Bad, true)
  }

  /** The loop from character i on. */
  function FixLoop(run: string, i: nat, st: Fix): (r: Fix)
    requires i <= |run| && st.Fix? && -1 <= st.value <= INT32_MAX
    ensures r.Fix? ==> -1 <= r.value <= INT32_MAX && (st.scale <= INT32_MAX ==> r.scale <= INT32_MAX)
    decreases |run| - i
  {
    if i == |run| then st
    else
      var (next, done) := FixStep(st, run[i]);
      if done then next else FixLoop(run, i + 1, next)
  }

  datatype Parsed = Failed | Parsed(value: int, scale: int)

  /** What is stored when the loop ends. */
  function Finish(st: Fix): Parsed {
    if st.Bad? then Failed
    else if (st.sign != 0 || st.scale != 0) && st.value == -1 then Failed
    else
      var value := if st.value == -1 then 0 else st.value;
      var scale := if st.value == -1 then 0 else if st.scale == 0 then 1 else st.scale;
      Parsed(if st.sign != 0 then value * st.sign else value, scale)
  }

  function FixedOf(run: string): Parsed {
    Finish(FixLoop(run, 0, START))
  }

  // ---------- decimals ----------

  ghost predicate AllDigits(s: string) {
    forall i :: 0 <= i < |s| ==> IsDigit(s[i])
  }

  /** v followed by the digits of s from i to n. */
  function Extend(v: nat, s: string, i: nat, n: nat): (r: nat)
    requires i <= n <= |s| && forall j :: i <= j < n ==> IsDigit(s[j])
    ensures v <= r
  {
    if i == n then v else 10 * Extend(v, s, i, n - 1) + Digit(s[n - 1])
  }

  function Pow10(k: nat): (p: nat)
    ensures 1 <= p
  {
    if k == 0 then 1 else 10 * Pow10(k - 1)
  }

  lemma {:induction false} ExtendFromFront(v: nat, s: string, i: nat, n: nat)
    requires i < n <= |s| && AllDigits(s)
    ensures Extend(v, s, i, n) == Extend(10 * v + Digit(s[i]), s, i + 1, n)
  {
    if i + 1 < n {
      ExtendFromFront(v, s, i, n - 1);
    } else {
      assert Extend(v, s, i, i) == v;
    }
  }

  lemma {:induction false} ExtendGrows(v: nat, s: string, i: nat, m: nat, n: nat)
    requires i <= m <= n <= |s| && AllDigits(s)
    ensures Extend(v, s, i, m) <= Extend(v, s, i, n)
  {
    if m < n {
      ExtendGrows(v, s, i, m, n - 1);
    }
  }

  /** How many of the fraction digits from i on still fit behind v. */
  function Kept(v: nat, frac: string, i: nat): (k: nat)
    requires i <= |frac| && forall j :: 0 <= j < |frac| ==> IsDigit(frac[j])
    ensures i + k <= |frac|
    decreases |frac| - i
  {
    if i == |frac| || 10 * v + Digit(frac[i]) > INT32_MAX then 0 else 1 + Kept(10 * v + Digit(frac[i]), frac, i + 1)
  }

  /** Kept is the longest prefix that fits: k digits fit exactly when k is at most that. */
  lemma {:induction false} KeptIsLongest(v: nat, frac: string, i: nat, k: nat)
    requires i + k <= |frac| && AllDigits(frac) && v <= INT32_MAX
    ensures Extend(v, frac, i, i + k) <= INT32_MAX <==> k <= Kept(v, frac, i)
    decreases k
  {
    if k > 0 {
      ExtendFromFront(v, frac, i, i + k);
      var v' := 10 * v + Digit(frac[i]);
      if v' <= INT32_MAX {
        KeptIsLongest(v', frac, i + 1, k - 1);
      } else {
        assert Extend(v', frac, i + 1, i + k) >= v';
      }
    }
  }

  lemma TruncateOneMore(a: nat, p: nat, x: nat, d: nat)
    requires a * p <= x < (a + 1) * p && d <= 9
    ensures a * (10 * p) <= 10 * x + d < (a + 1) * (10 * p)
  {
    var y, z := a * p, (a + 1) * p;
    assert a * (10 * p) == 10 * y && (a + 1) * (10 * p) == 10 * z;
  }

  /** Cutting digits off the end truncates: the cut value is the floor at the coarser scale. */
  lemma {:induction false} CutTruncates(v: nat, s: string, i: nat, m: nat, n: nat)
    requires i <= m <= n <= |s| && forall j :: i <= j < n ==> IsDigit(s[j])
    ensures Extend(v, s, i, m) * Pow10(n - m) <= Extend(v, s, i, n) < (Extend(v, s, i, m) + 1) * Pow10(n - m)
  {
    if m < n {
      CutTruncates(v, s, i, m, n - 1);
      TruncateOneMore(Extend(v, s, i, m), Pow10(n - 1 - m), Extend(v, s, i, n - 1), Digit(s[n - 1]));
    }
  }
}
