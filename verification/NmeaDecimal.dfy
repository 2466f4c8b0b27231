/** What the fixed-point field accepts and what it reads: every run of characters, taken apart as a decimal. */
module NmeaDecimal {
  import opened Machine
  import opened NmeaFixed
  import opened NmeaScan

  function SignText(sign: int): string {
    if sign == 1 then "+" else if sign == -1 then "-" else ""
  }

  /** Spaces, a sign, digits, and a fraction if there is a point. */
  datatype Decimal = Decimal(spaces: nat, sign: int, whole: string, point: bool, frac: string)

  ghost predicate Shaped(d: Decimal) {
    -1 <= d.sign <= 1 && AllDigits(d.whole) && AllDigits(d.frac) && (!d.point ==> d.frac == "")
  }

  predicate HasDigits(d: Decimal) {
    d.whole != "" || d.frac != ""
  }

  /** A decimal as a receiver writes it has a digit. */
  ghost predicate DecimalOk(d: Decimal) {
    Shaped(d) && HasDigits(d)
  }

  function DecimalText(d: Decimal): string {
    Spaces(d.spaces) + (SignText(d.sign) + (d.whole + ((if d.point then "." else "") + d.frac)))
  }

  /** The other spelling that is accepted: without whole digits the sign may also stand behind the point. */
  function LateText(d: Decimal): string {
    Spaces(d.spaces) + ("." + (SignText(d.sign) + d.frac))
  }

  ghost predicate MayBeLate(d: Decimal) {
    d.point && d.whole == "" && d.sign != 0
  }

  function TextLength(d: Decimal): nat {
    d.spaces + |SignText(d.sign)| + |d.whole| + (if d.point then 1 else 0) + |d.frac|
  }

  ghost function Whole(d: Decimal): nat
    requires Shaped(d)
  {
    Extend(0, d.whole, 0, |d.whole|)
  }

  /** The number of fraction digits that reach the result. */
  ghost function KeptDigits(d: Decimal): nat
    requires Shaped(d)
  {
    Kept(Whole(d), d.frac, 0)
  }

  /** The decimal read in full, as an integer in units of the last fraction digit. */
  ghost function Exact(d: Decimal): nat
    requires Shaped(d)
  {
    Extend(Whole(d), d.frac, 0, |d.frac|)
  }

  /** The decimal cut to the digits that are kept. */
  ghost function Cut(d: Decimal): nat
    requires Shaped(d)
  {
    Extend(Whole(d), d.frac, 0, KeptDigits(d))
  }

  function Signed(sign: int, v: int): int {
    if sign == -1 then -v else v
  }

  // ---------- the scale ----------

  /** The scale variable after k fraction digits: it is multiplied by ten each time, in 32 bits. */
  function ScaleAfter(k: nat): (s: int)
    ensures -INT32_MAX - 1 <= s <= INT32_MAX
  {
    if k == 0 then 1 else Wrap32(ScaleAfter(k - 1) * 10)
  }

  lemma {:induction false} Pow10Fits(k: nat)
    requires k <= 9
    ensures Pow10(k) <= 1_000_000_000
    decreases 9 - k
  {
    if k == 9 {
      assert Pow10(3) == 10 * (10 * (10 * Pow10(0)));
      assert Pow10(6) == 10 * (10 * (10 * Pow10(3)));
      assert Pow10(9) == 10 * (10 * (10 * Pow10(6)));
    } else {
      Pow10Fits(k + 1);
    }
  }

  lemma {:induction false} TenDigitsDoNotFit(k: nat)
    requires 10 <= k
    ensures Pow10(k) > INT32_MAX
  {
    if k == 10 {
      assert Pow10(3) == 10 * (10 * (10 * Pow10(0)));
      assert Pow10(6) == 10 * (10 * (10 * Pow10(3)));
      assert Pow10(10) == 10 * (10 * (10 * (10 * Pow10(6))));
    } else {
      TenDigitsDoNotFit(k - 1);
    }
  }

  /** Up to nine digits it is the power of ten, and never again after that. */
  lemma {:induction false} ScaleIsPowerIff(k: nat)
    ensures ScaleAfter(k) == Pow10(k) <==> k <= 9
  {
    hide Wrap32;
    if k > 9 {
      TenDigitsDoNotFit(k);
    } else if k > 0 {
      ScaleIsPowerIff(k - 1);
      Pow10Fits(k);
      assert Pow10(k) == Pow10(k - 1) * 10;
    }
  }

  lemma {:induction false} PowersAdd(a: nat, b: nat)
    ensures Pow2(a + b) == Pow2(a) * Pow2(b)
  {
    if b > 0 {
      PowersAdd(a, b - 1);
      assert Pow2(a) * (2 * Pow2(b - 1)) == 2 * (Pow2(a) * Pow2(b - 1));
    }
  }

  lemma WordSplits(k: nat, n: nat)
    requires k < n == 32
    ensures 0x1_0000_0000 == 2 * (Pow2(k) * Pow2(n - 1 - k))
  {
    PowersAdd(k, n - 1 - k);
    ThirtyTwoBits(n);
    var half, product := Pow2(n - 1), Pow2(k) * Pow2(n - 1 - k);
    assert half == product;
    assert Pow2(n) == 2 * half;
  }

  lemma ThirtyTwoBits(n: nat)
    requires n == 32
    ensures Pow2(n) == 0x1_0000_0000
  {
    assert Pow2(4) == 16;
    PowersAdd(4, 4);
    PowersAdd(8, 8);
    PowersAdd(16, 16);
  }

  lemma WrapSubtracts(x: int) returns (q: int)
    ensures Wrap32(x) == x - 0x1_0000_0000 * q
  {
    q := (x + 0x8000_0000) / 0x1_0000_0000;
  }

  /** Up to 31 digits the scale is 2 to the k times an odd number, so it is not zero. */
  lemma {:induction false} ScaleIsOddMultiple(k: nat) returns (m: int)
    requires k <= 31
    ensures m % 2 == 1 && ScaleAfter(k) == Pow2(k) * m
  {
    if k == 0 {
      m := 1;
    } else {
      var m' := ScaleIsOddMultiple(k - 1);
      var q := WrapSubtracts(ScaleAfter(k - 1) * 10);
      WordSplits(k, 32);
      assert Pow2(k) == 2 * Pow2(k - 1);
      hide Pow2;
      hide Wrap32;
      m := OddAgain(Pow2(k - 1), m', Pow2(31 - k), q);
    }
  }

  lemma OddAgain(p: nat, m: int, r: nat, q: int) returns (m': int)
    requires m % 2 == 1
    ensures m' % 2 == 1 && p * m * 10 - (2 * ((2 * p) * r)) * q == (2 * p) * m'
  {
    var rq := r * q;
    m' := 5 * m - 2 * rq;
    assert (2 * p) * m' == (2 * p) * (5 * m) - (2 * p) * (2 * rq);
    assert (2 * p) * (5 * m) == p * m * 10;
    assert (2 * ((2 * p) * r)) * q == (2 * p) * (2 * rq);
  }

  /** The scale runs out of bits after 32 digits and stays zero. */
  lemma {:induction false} ScaleIsZeroIff(k: nat)
    ensures ScaleAfter(k) == 0 <==> 32 <= k
  {
    if k <= 31 {
      var m := ScaleIsOddMultiple(k);
      NonzeroProduct(Pow2(k), m);
    } else if k == 32 {
      ScaleRunsOut(k);
    } else {
      ScaleIsZeroIff(k - 1);
    }
  }

  lemma ScaleRunsOut(k: nat)
    requires k == 32
    ensures ScaleAfter(k) == 0
  {
    var m := ScaleIsOddMultiple(k - 1);
    LowHalf(k);
    NothingWraps(Pow2(k - 1), m);
  }

  lemma LowHalf(n: nat)
    requires n == 32
    ensures 2 * Pow2(n - 1) == 0x1_0000_0000
  {
    ThirtyTwoBits(n);
  }

  lemma NothingWraps(p: nat, m: int)
    requires 2 * p == 0x1_0000_0000
    ensures Wrap32(p * m * 10) == 0
  {
    assert p * m * 10 == 0x1_0000_0000 * (5 * m);
  }

  lemma NonzeroProduct(p: nat, m: int)
    requires p > 0 && m % 2 == 1
    ensures p * m != 0
  {
    assert m != 0;
  }

  // ---------- the loop over a decimal ----------

  lemma {:induction false} SkipSpaces(run: string, n: nat, i: nat)
    requires i <= n <= |run| && forall j :: 0 <= j < n ==> run[j] == ' '
    ensures FixLoop(run, i, START) == FixLoop(run, n, START)
    decreases n - i
  {
    if i < n {
      assert FixStep(START, ' ') == (START, false);
      hide FixStep;
      SkipSpaces(run, n, i + 1);
    }
  }

  /** s stands in run at position a. */
  ghost predicate StandsAt(run: string, a: nat, s: string) {
    a + |s| <= |run| && forall j :: 0 <= j < |s| ==> run[a + j] == s[j]
  }

  /** The value variable after i digits. */
  function Current(v: int, s: string, i: nat): int
    requires -1 <= v && i <= |s| && forall j :: 0 <= j < |s| ==> IsDigit(s[j])
  {
    if i == 0 then v else Extend(if v == -1 then 0 else v, s, 0, i)
  }

  /** Before the point the digits accumulate, and a value past 32 bits is an error. */
  lemma {:induction false} WholeLoop(run: string, a: nat, s: string, i: nat, sign: int)
    requires AllDigits(s) && StandsAt(run, a, s) && i <= |s| && Extend(0, s, 0, i) <= INT32_MAX
    ensures FixLoop(run, a + i, Fix(sign, Current(-1, s, i), 0)) ==
            if Extend(0, s, 0, |s|) > INT32_MAX then Bad else FixLoop(run, a + |s|, Fix(sign, Current(-1, s, |s|), 0))
    decreases |s| - i
  {
    if i < |s| {
      assert run[a + i] == s[i];
      var v := Extend(0, s, 0, i + 1);
      assert v == 10 * Extend(0, s, 0, i) + Digit(s[i]);
      if v <= INT32_MAX {
        WholeLoop(run, a, s, i + 1, sign);
      } else {
        ExtendGrows(0, s, 0, i + 1, |s|);
      }
    }
  }

  lemma CurrentFits(v: int, s: string, i: nat)
    requires AllDigits(s) && i <= |s| && -1 <= v <= INT32_MAX && i <= Kept(if v == -1 then 0 else v, s, 0)
    ensures -1 <= Current(v, s, i) <= INT32_MAX
  {
    KeptIsLongest(if v == -1 then 0 else v, s, 0, i);
  }

  /** One fraction digit: kept if the value still fits 32 bits; otherwise the end of the loop, an error if the scale is gone. */
  lemma FracStep(s: string, i: nat, sign: int, v: int)
    requires AllDigits(s) && i < |s| && -1 <= v <= INT32_MAX && i <= Kept(if v == -1 then 0 else v, s, 0)
    ensures var st := Fix(sign, Current(v, s, i), ScaleAfter(i));
            && -1 <= st.value <= INT32_MAX
            && FixStep(st, s[i]) == if i < Kept(if v == -1 then 0 else v, s, 0)
                                    then (Fix(sign, Current(v, s, i + 1), ScaleAfter(i + 1)), false)
                                    else if ScaleAfter(i) != 0 then (st, true) else (Bad, true)
  {
    var w := if v == -1 then 0 else v;
    CurrentFits(v, s, i);
    KeptIsLongest(w, s, 0, i);
    KeptIsLongest(w, s, 0, i + 1);
    assert Extend(w, s, 0, i + 1) == 10 * Extend(w, s, 0, i) + Digit(s[i]);
    assert Extend(w, s, 0, 0) == w;
    NextScale(i);
    hide ScaleAfter, Wrap32, Kept, Extend;
  }

  lemma NextScale(i: nat)
    ensures ScaleAfter(i + 1) == if ScaleAfter(i) != 0 then Wrap32(ScaleAfter(i) * 10) else 0
  {
  }

  /** After the point digits are kept while they fit; the first that does not ends the loop, whatever follows. */
  lemma {:induction false} FracLoop(run: string, a: nat, s: string, i: nat, sign: int, v: int)
    requires AllDigits(s) && StandsAt(run, a, s) && i <= |s| && -1 <= v <= INT32_MAX
    requires i <= Kept(if v == -1 then 0 else v, s, 0)
    ensures -1 <= Current(v, s, i) <= INT32_MAX
    ensures var k := Kept(if v == -1 then 0 else v, s, 0);
            && -1 <= Current(v, s, k) <= INT32_MAX
            && FixLoop(run, a + i, Fix(sign, Current(v, s, i), ScaleAfter(i))) ==
               if k == |s| then FixLoop(run, a + |s|, Fix(sign, Current(v, s, k), ScaleAfter(k)))
               else if ScaleAfter(k) != 0 then Fix(sign, Current(v, s, k), ScaleAfter(k))
               else Bad
    decreases |s| - i
  {
    var k := Kept(if v == -1 then 0 else v, s, 0);
    CurrentFits(v, s, i);
    CurrentFits(v, s, k);
    if i < |s| {
      FracStep(s, i, sign, v);
      assert run[a + i] == s[i];
      hide FixStep, Kept, Extend, ScaleAfter, Current;
      if i < k {
        FracLoop(run, a, s, i + 1, sign, v);
      }
    }
  }

  // ---------- a decimal in a run ----------

  /** The parts of d stand in run from its start on, one behind the other. */
  ghost predicate Laid(run: string, d: Decimal, late: bool) {
    && TextLength(d) <= |run|
    && (forall j :: 0 <= j < d.spaces ==> run[j] == ' ')
    && StandsAt(run, TextLength(d) - |d.frac|, d.frac)
    && if late then MayBeLate(d) && run[d.spaces] == '.' && StandsAt(run, d.spaces + 1, SignText(d.sign))
       else
         var a := d.spaces + |SignText(d.sign)|;
         StandsAt(run, d.spaces, SignText(d.sign)) && StandsAt(run, a, d.whole) && (d.point ==> run[a + |d.whole|] == '.')
  }

  lemma SignStep(run: string, a: nat, sign: int, scale: int)
    requires -1 <= sign <= 1 && StandsAt(run, a, SignText(sign))
    ensures FixLoop(run, a, Fix(0, -1, scale)) == FixLoop(run, a + |SignText(sign)|, Fix(sign, -1, scale))
  {
    if sign != 0 {
      assert run[a + 0] == SignText(sign)[0];
    }
  }

  lemma PointStep(run: string, b: nat, sign: int, v: int)
    requires b < |run| && run[b] == '.' && -1 <= v <= INT32_MAX
    ensures FixLoop(run, b, Fix(sign, v, 0)) == FixLoop(run, b + 1, Fix(sign, v, 1))
  {
  }

  /** The value variable in front of the fraction: -1 without whole digits. */
  ghost function WholeVar(d: Decimal): int
    requires Shaped(d)
  {
    if d.whole == "" then -1 else Whole(d)
  }

  /** Up to the fraction: spaces, sign, whole digits and point, in either order that is accepted. */
  lemma UpToFraction(run: string, d: Decimal, late: bool)
    requires Shaped(d) && Laid(run, d, late)
    ensures FixLoop(run, 0, START) ==
            if Whole(d) > INT32_MAX then Bad
            else FixLoop(run, TextLength(d) - |d.frac|, Fix(d.sign, WholeVar(d), if d.point then 1 else 0))
  {
    hide FixLoop, FixStep, Extend;
    SkipSpaces(run, d.spaces, 0);
    NoDigits(d.whole);
    if late {
      PointStep(run, d.spaces, 0, -1);
      SignStep(run, d.spaces + 1, d.sign, 1);
    } else {
      var a := d.spaces + |SignText(d.sign)|;
      SignStep(run, d.spaces, d.sign, 0);
      WholeLoop(run, a, d.whole, 0, d.sign);
      if d.point && Whole(d) <= INT32_MAX {
        PointStep(run, a + |d.whole|, d.sign, WholeVar(d));
      }
    }
  }

  lemma NoDigits(s: string)
    requires AllDigits(s)
    ensures Extend(0, s, 0, 0) == 0
  {
  }

  /** The value variable behind the kept digits: -1 without any digit. */
  ghost function CutVar(d: Decimal): int
    requires Shaped(d)
  {
    if d.whole == "" && KeptDigits(d) == 0 then -1 else Cut(d)
  }

  lemma CutVarIs(d: Decimal)
    requires Shaped(d) && Whole(d) <= INT32_MAX
    ensures -1 <= WholeVar(d) <= INT32_MAX && KeptDigits(d) == Kept(if WholeVar(d) == -1 then 0 else WholeVar(d), d.frac, 0)
    ensures CutVar(d) == Current(WholeVar(d), d.frac, KeptDigits(d)) && -1 <= CutVar(d) <= INT32_MAX
    ensures d.frac == "" ==> KeptDigits(d) == 0
    ensures CutVar(d) == if HasDigits(d) then Cut(d) else -1
  {
    CurrentFits(WholeVar(d), d.frac, KeptDigits(d));
    FirstDigitFits(d);
    assert Extend(Whole(d), d.frac, 0, 0) == Whole(d);
  }

  /** Where the loop is behind a decimal that stands at the start of a run, if it gets that far. */
  lemma DecimalLoop(run: string, d: Decimal, late: bool)
    requires Shaped(d) && Laid(run, d, late)
    ensures Whole(d) <= INT32_MAX ==> -1 <= CutVar(d) <= INT32_MAX
    ensures var k := KeptDigits(d);
            FixLoop(run, 0, START) ==
            if Whole(d) > INT32_MAX then Bad
            else if k == |d.frac| then FixLoop(run, TextLength(d), Fix(d.sign, CutVar(d), if d.point then ScaleAfter(k) else 0))
            else if k < 32 then Fix(d.sign, CutVar(d), ScaleAfter(k))
            else Bad
  {
    UpToFraction(run, d, late);
    if Whole(d) <= INT32_MAX {
      CutVarIs(d);
      ScaleIsZeroIff(KeptDigits(d));
      assert ScaleAfter(0) == 1;
      hide FixLoop, ScaleAfter, Kept, Extend, CutVar, WholeVar, KeptDigits, Whole, Cut;
      if d.point {
        FracLoop(run, TextLength(d) - |d.frac|, d.frac, 0, d.sign, WholeVar(d));
      }
    }
  }

  // ---------- every run ----------

  /** 32 or more fraction digits were kept, so the scale is gone, and a second point follows. */
  ghost predicate SecondPoint(d: Decimal, tail: string)
    requires Shaped(d)
  {
    32 <= KeptDigits(d) == |d.frac| && tail != "" && tail[0] == '.'
  }

  /** The result of k digits behind a point, and of v with these digits behind it. */
  ghost function Result(sign: int, v: nat, k: nat): Parsed {
    Parsed(Signed(sign, v), if k < 32 then ScaleAfter(k) else 1)
  }

  /** From a further point on, at t[i]: digits are kept behind v on a new scale, and if that runs out as well, so on. */
  ghost function FurtherPoint(sign: int, v: nat, t: string, i: nat): Parsed
    requires i < |t| && v <= INT32_MAX
    decreases |t| - i
  {
    var e := DigitsEnd(t, i + 1);
    var frac := t[i + 1..e];
    var k := Kept(v, frac, 0);
    KeptIsLongest(v, frac, 0, k);
    var w := Extend(v, frac, 0, k);
    if k < |frac| then if k < 32 then Result(sign, w, k) else Failed
    else if e == |t| then Result(sign, w, k)
    else if 32 <= k && t[e] == '.' then FurtherPoint(sign, w, t, e)
    else Failed
  }

  /** What comes of a run that starts with d, taken as far as it goes, with tail behind it. */
  ghost function Verdict(d: Decimal, tail: string): Parsed
    requires Shaped(d)
  {
    var k := KeptDigits(d);
    if !HasDigits(d) then
      if d.sign == 0 && !d.point && tail == "" then Parsed(0, 0) else Failed
    else if Whole(d) > INT32_MAX || 32 <= k < |d.frac| then Failed
    else if SecondPoint(d, tail) then
      KeptIsLongest(Whole(d), d.frac, 0, k);
      FurtherPoint(d.sign, Cut(d), tail, 0)
    else if k == |d.frac| && tail != "" then Failed
    else Result(d.sign, Cut(d), k)
  }

  /** c does not continue d. */
  ghost predicate Stops(d: Decimal, c: char) {
    && !IsDigit(c)
    && (!d.point ==> c != '.')
    && (d.sign == 0 && !HasDigits(d) ==> c != '+' && c != '-')
    && (d.sign == 0 && !HasDigits(d) && !d.point ==> c != ' ')
  }

  function BlanksEnd(run: string, i: nat): (e: nat)
    requires i <= |run|
    ensures i <= e <= |run| && At(run, e) != ' ' && forall j :: i <= j < e ==> run[j] == ' '
    decreases |run| - i
  {
    if At(run, i) == ' ' then BlanksEnd(run, i + 1) else i
  }

  function SignOf(c: char): (sign: int)
    ensures -1 <= sign <= 1 && (sign == 0 <==> c != '+' && c != '-')
    ensures sign != 0 ==> SignText(sign) == [c]
  {
    if c == '+' then 1 else if c == '-' then -1 else 0
  }

  /** How a run starts: n spaces, a sign, and digits from a to b. */
  ghost predicate StartsWith(run: string, n: nat, sign: int, a: nat, b: nat) {
    && n <= a <= b <= |run| && -1 <= sign <= 1
    && (forall j :: 0 <= j < n ==> run[j] == ' ') && (sign == 0 ==> At(run, n) != ' ')
    && a == n + |SignText(sign)| && StandsAt(run, n, SignText(sign)) && sign == SignOf(At(run, n))
    && (forall j :: a <= j < b ==> IsDigit(run[j])) && !IsDigit(At(run, b))
  }

  lemma Start(run: string) returns (n: nat, sign: int, a: nat, b: nat)
    ensures StartsWith(run, n, sign, a, b)
  {
    n := BlanksEnd(run, 0);
    sign := SignOf(At(run, n));
    a := n + if sign != 0 then 1 else 0;
    b := DigitsEnd(run, a);
  }

  lemma TakePlain(run: string, n: nat, sign: int, a: nat, b: nat) returns (d: Decimal)
    requires StartsWith(run, n, sign, a, b) && At(run, b) != '.'
    ensures Shaped(d) && Laid(run, d, false) && TextLength(d) == b
    ensures b < |run| ==> Stops(d, run[b])
  {
    d := Decimal(n, sign, run[a..b], false, "");
    hide SignText, SignOf;
  }

  lemma TakePointed(run: string, n: nat, sign: int, a: nat, b: nat) returns (d: Decimal)
    requires StartsWith(run, n, sign, a, b) && At(run, b) == '.' && (a < b || sign != 0 || SignOf(At(run, b + 1)) == 0)
    ensures Shaped(d) && Laid(run, d, false) && TextLength(d) <= |run|
    ensures TextLength(d) < |run| ==> Stops(d, run[TextLength(d)])
  {
    var e := DigitsEnd(run, b + 1);
    d := Decimal(n, sign, run[a..b], true, run[b + 1..e]);
    assert TextLength(d) == e;
    hide SignText;
  }

  lemma TakeLate(run: string, n: nat, a: nat, b: nat) returns (d: Decimal)
    requires StartsWith(run, n, 0, a, b) && At(run, b) == '.' && a == b && SignOf(At(run, b + 1)) != 0
    ensures Shaped(d) && Laid(run, d, true) && TextLength(d) <= |run|
    ensures TextLength(d) < |run| ==> Stops(d, run[TextLength(d)])
  {
    var e := DigitsEnd(run, b + 2);
    d := Decimal(n, SignOf(At(run, b + 1)), "", true, run[b + 2..e]);
    assert TextLength(d) == e;
  }

  /** Any run taken apart from its start: spaces, sign, digits, point, a late sign, digits. */
  lemma TakeApart(run: string) returns (d: Decimal, late: bool)
    ensures Shaped(d) && Laid(run, d, late)
    ensures TextLength(d) < |run| ==> Stops(d, run[TextLength(d)])
  {
    var n, sign, a, b := Start(run);
    hide *;
    if At(run, b) != '.' {
      late := false;
      d := TakePlain(run, n, sign, a, b);
    } else if a == b && sign == 0 && SignOf(At(run, b + 1)) != 0 {
      late := true;
      d := TakeLate(run, n, a, b);
    } else {
      assert a <= b by { Ordered(run, n, sign, a, b); }
      late := false;
      d := TakePointed(run, n, sign, a, b);
    }
  }

  lemma Ordered(run: string, n: nat, sign: int, a: nat, b: nat)
    requires StartsWith(run, n, sign, a, b)
    ensures a <= b
  {
  }

  /** A character that does not continue the decimal is an error, unless the scale has run out and it is another point. */
  lemma StopIsError(d: Decimal, c: char, v: int, scale: int)
    requires Stops(d, c) && -1 <= v <= INT32_MAX && (v == -1 <==> !HasDigits(d))
    requires (scale == 0 ==> !d.point || c != '.') && (!d.point ==> scale == 0) && (v == -1 && d.point ==> scale != 0)
    ensures FixStep(Fix(d.sign, v, scale), c) == (Bad, true)
  {
  }

  lemma LoopAtEnd(run: string, i: nat, st: Fix)
    requires i <= |run| && st.Fix? && -1 <= st.value <= INT32_MAX
    ensures i == |run| ==> FixLoop(run, i, st) == st
    ensures i < |run| && FixStep(st, run[i]).1 ==> FixLoop(run, i, st) == FixStep(st, run[i]).0
  {
  }

  lemma FirstDigitFits(d: Decimal)
    requires Shaped(d)
    ensures d.whole == "" && d.frac != "" ==> 1 <= KeptDigits(d)
    ensures d.whole == "" ==> Whole(d) == 0
  {
  }

  lemma FinishIs(d: Decimal, st: Fix)
    requires Shaped(d) && Whole(d) <= INT32_MAX
    requires st == Fix(d.sign, CutVar(d), if d.point then ScaleAfter(KeptDigits(d)) else 0)
    ensures Finish(st) ==
            if !HasDigits(d) then if d.sign == 0 && !d.point then Parsed(0, 0) else Failed
            else Result(d.sign, Cut(d), KeptDigits(d))
  {
    CutVarIs(d);
    assert ScaleAfter(0) == 1;
    hide ScaleAfter, KeptDigits, Whole, Kept, Extend, Cut, CutVar, Wrap32, SignText, AllDigits;
    if HasDigits(d) {
      var v, k: nat := Cut(d), KeptDigits(d);
      PlainResult(d.sign, v);
      ResultIs(d.sign, v, k);
      hide Finish, Result;
    } else {
      ScaleStays(d);
    }
  }

  lemma ScaleStays(d: Decimal)
    requires Shaped(d) && !HasDigits(d)
    ensures KeptDigits(d) == 0 && ScaleAfter(0) == 1
  {
  }

  lemma PlainResult(sign: int, v: nat)
    requires -1 <= sign <= 1
    ensures Finish(Fix(sign, v, 0)) == Result(sign, v, 0)
  {
    assert ScaleAfter(0) == 1;
  }

  lemma {:induction false} LoopOfSuffix(run: string, n: nat, i: nat, st: Fix)
    requires n + i <= |run| && st.Fix? && -1 <= st.value <= INT32_MAX
    ensures FixLoop(run, n + i, st) == FixLoop(run[n..], i, st)
    decreases |run| - i
  {
    if n + i < |run| {
      var (next, done) := FixStep(st, run[n + i]);
      assert run[n..][i] == run[n + i];
      hide FixStep;
      if !done {
        LoopOfSuffix(run, n, i + 1, next);
      }
    }
  }

  lemma ResultIs(sign: int, v: nat, k: nat)
    requires -1 <= sign <= 1
    ensures Finish(Fix(sign, v, ScaleAfter(k))) == Result(sign, v, k)
  {
    ScaleIsZeroIff(k);
    hide ScaleAfter;
  }

  /** Behind the digits of a further point: another one if the scale is gone, or an error. */
  lemma BehindDigits(c: char, sign: int, v: nat, k: nat)
    requires !IsDigit(c) && v <= INT32_MAX && !(32 <= k && c == '.')
    ensures FixStep(Fix(sign, v, ScaleAfter(k)), c) == (Bad, true)
  {
    ScaleIsZeroIff(k);
    hide ScaleAfter;
  }

  /** The digits behind a point, kept behind a value that is already there. */
  lemma FracFrom(run: string, a: nat, s: string, sign: int, v: nat, k: nat, w: nat)
    requires AllDigits(s) && StandsAt(run, a, s) && v <= INT32_MAX && k == Kept(v, s, 0) && w == Extend(v, s, 0, k)
    ensures w <= INT32_MAX
    ensures FixLoop(run, a, Fix(sign, v, 1)) ==
            if k == |s| then FixLoop(run, a + |s|, Fix(sign, w, ScaleAfter(k)))
            else if k < 32 then Fix(sign, w, ScaleAfter(k)) else Bad
  {
    CurrentIs(v, s, k);
    ScaleIsZeroIff(k);
    assert ScaleAfter(0) == 1;
    hide FixLoop, FixStep, ScaleAfter, Kept, Extend, Current, Wrap32;
    FracLoop(run, a, s, 0, sign, v);
  }

  /** From a point to the end of its digits, where the scale starts from one again. */
  lemma FurtherDigits(t: string, i: nat, sign: int, v: nat, e: nat, frac: string, k: nat, w: nat)
    requires i < e <= |t| && t[i] == '.' && v <= INT32_MAX
    requires AllDigits(frac) && frac == t[i + 1..e] && k == Kept(v, frac, 0) && w == Extend(v, frac, 0, k)
    ensures w <= INT32_MAX
    ensures FixLoop(t, i, Fix(sign, v, 0)) ==
            if k == |frac| then FixLoop(t, e, Fix(sign, w, ScaleAfter(k)))
            else if k < 32 then Fix(sign, w, ScaleAfter(k)) else Bad
  {
    hide FixLoop, FixStep, ScaleAfter, Kept, Extend;
    PointStep(t, i, sign, v);
    FracFrom(t, i + 1, frac, sign, v, k, w);
  }

  lemma {:induction false} FurtherLoop(t: string, i: nat, sign: int, v: nat)
    requires i < |t| && t[i] == '.' && v <= INT32_MAX && -1 <= sign <= 1
    ensures Finish(FixLoop(t, i, Fix(sign, v, 0))) == FurtherPoint(sign, v, t, i)
    decreases |t| - i
  {
    var e := DigitsEnd(t, i + 1);
    var frac := t[i + 1..e];
    var k := Kept(v, frac, 0);
    var w := Extend(v, frac, 0, k);
    FurtherDigits(t, i, sign, v, e, frac, k, w);
    BadFails();
    ResultIs(sign, w, k);
    hide FixLoop, FixStep, ScaleAfter, Kept, Extend, Finish, Result, Wrap32;
    if k == |frac| {
      var st := Fix(sign, w, ScaleAfter(k));
      LoopAtEnd(t, e, st);
      if e < |t| && 32 <= k && t[e] == '.' {
        ScaleIsZeroIff(k);
        FurtherLoop(t, e, sign, w);
      } else if e < |t| {
        BehindDigits(t[e], sign, w, k);
      }
    }
  }

  lemma CurrentIs(v: nat, s: string, k: nat)
    requires AllDigits(s) && k <= |s|
    ensures Current(v, s, k) == Extend(v, s, 0, k) && Current(v, s, 0) == v
  {
    assert Extend(v, s, 0, 0) == v;
  }

  lemma RunIsVerdict(run: string, d: Decimal, late: bool)
    requires Shaped(d) && Laid(run, d, late) && (TextLength(d) < |run| ==> Stops(d, run[TextLength(d)]))
    ensures FixedOf(run) == Verdict(d, run[TextLength(d)..])
  {
    var end, k, tail := TextLength(d), KeptDigits(d), run[TextLength(d)..];
    DecimalLoop(run, d, late);
    BadFails();
    FirstDigitFits(d);
    if Whole(d) <= INT32_MAX {
      CutVarIs(d);
      ScaleIsZeroIff(k);
      var st := Fix(d.sign, CutVar(d), if d.point then ScaleAfter(k) else 0);
      FinishIs(d, st);
      assert end < |run| ==> tail[0] == run[end];
      hide FixLoop, FixStep, ScaleAfter, KeptDigits, Whole, Kept, Extend, Cut, CutVar, Finish, Stops, Laid, TextLength, FurtherPoint;
      if k == |d.frac| {
        LoopAtEnd(run, end, st);
        if SecondPoint(d, tail) {
          LoopOfSuffix(run, end, 0, st);
          FurtherLoop(tail, 0, d.sign, Cut(d));
        } else if end < |run| {
          StopIsError(d, run[end], st.value, st.scale);
        }
      }
    }
  }

  lemma BadFails()
    ensures Finish(Bad) == Failed
  {
  }

  // ---------- the text of a decimal ----------

  function Text(d: Decimal, late: bool): string {
    if late then LateText(d) else DecimalText(d)
  }

  lemma TextIsLaid(d: Decimal, late: bool, tail: string)
    requires Shaped(d) && (late ==> MayBeLate(d))
    ensures Laid(Text(d, late) + tail, d, late) && (Text(d, late) + tail)[TextLength(d)..] == tail
  {
    if late {
      LateIsLaid(d, tail);
    } else {
      EarlyIsLaid(d, tail);
    }
  }

  lemma EarlyIsLaid(d: Decimal, tail: string)
    requires Shaped(d)
    ensures Laid(DecimalText(d) + tail, d, false) && (DecimalText(d) + tail)[TextLength(d)..] == tail
  {
    hide SignText;
    assert |DecimalText(d)| == TextLength(d);
  }

  lemma LateIsLaid(d: Decimal, tail: string)
    requires Shaped(d) && MayBeLate(d)
    ensures Laid(LateText(d) + tail, d, true) && (LateText(d) + tail)[TextLength(d)..] == tail
  {
    hide SignText;
    assert |LateText(d)| == TextLength(d);
  }

  lemma LaidText(run: string, d: Decimal, late: bool)
    requires Shaped(d) && Laid(run, d, late)
    ensures (late ==> MayBeLate(d)) && run[..TextLength(d)] == Text(d, late)
  {
    TextIsLaid(d, late, "");
    var text := Text(d, late);
    assert text + "" == text;
    hide Text, DecimalText, LateText;
    SameText(run, text, d, late);
  }

  lemma SameText(run: string, text: string, d: Decimal, late: bool)
    requires Laid(run, d, late) && Laid(text, d, late) && |text| == TextLength(d)
    ensures run[..TextLength(d)] == text
  {
    var a, c := d.spaces, TextLength(d) - |d.frac|;
    forall i | 0 <= i < |text|
      ensures run[i] == text[i]
    {
      if i >= c {
        assert run[c + (i - c)] == d.frac[i - c] == text[c + (i - c)];
      } else if late && a < i {
        assert run[a + 1 + (i - a - 1)] == SignText(d.sign)[i - a - 1] == text[a + 1 + (i - a - 1)];
      } else if !late && a <= i < a + |SignText(d.sign)| {
        assert run[a + (i - a)] == SignText(d.sign)[i - a] == text[a + (i - a)];
      } else if !late && a + |SignText(d.sign)| <= i < a + |SignText(d.sign)| + |d.whole| {
        var w := a + |SignText(d.sign)|;
        assert run[w + (i - w)] == d.whole[i - w] == text[w + (i - w)];
      }
    }
  }

  // ---------- the results ----------

  /** A decimal, in either spelling and with anything behind it that does not continue it, is read as the verdict says. */
  lemma SpelledIsVerdict(d: Decimal, late: bool, tail: string)
    requires Shaped(d) && (late ==> MayBeLate(d)) && (tail != "" ==> Stops(d, tail[0]))
    ensures FixedOf(Text(d, late) + tail) == Verdict(d, tail)
  {
    TextIsLaid(d, late, tail);
    var run := Text(d, late) + tail;
    assert TextLength(d) < |run| ==> run[TextLength(d)] == run[TextLength(d)..][0];
    hide Text, Laid, Stops, Verdict;
    RunIsVerdict(run, d, late);
  }

  /** Conversely every run is such a decimal and a tail, so the verdict is all there is to say about the field. */
  lemma EveryRunIsRead(run: string) returns (d: Decimal, late: bool, tail: string)
    ensures Shaped(d) && (late ==> MayBeLate(d)) && run == Text(d, late) + tail && (tail != "" ==> Stops(d, tail[0]))
    ensures FixedOf(run) == Verdict(d, tail)
  {
    d, late := TakeApart(run);
    tail := run[TextLength(d)..];
    LaidText(run, d, late);
    assert run == run[..TextLength(d)] + tail;
    hide Text, Laid, Stops, Verdict;
    RunIsVerdict(run, d, late);
  }

  /**
   * With at most nine fraction digits kept, a run is accepted exactly when it is blank, or a decimal whose whole part fits
   * 32 bits with nothing behind it unless a fraction digit did not fit; and the result is the decimal's.
   */
  lemma AcceptedIsDecimal(run: string) returns (d: Decimal, late: bool, tail: string)
    ensures Shaped(d) && (late ==> MayBeLate(d)) && run == Text(d, late) + tail && (tail != "" ==> Stops(d, tail[0]))
    ensures KeptDigits(d) <= 9 ==>
              && (FixedOf(run).Parsed? <==>
                    || run == Spaces(d.spaces)
                    || (DecimalOk(d) && Whole(d) <= INT32_MAX && (tail == "" || KeptDigits(d) < |d.frac|)))
              && (FixedOf(run).Parsed? ==>
                    FixedOf(run) == if HasDigits(d) then Parsed(Signed(d.sign, Cut(d)), Pow10(KeptDigits(d))) else Parsed(0, 0))
  {
    d, late, tail := EveryRunIsRead(run);
    ScaleIsPowerIff(KeptDigits(d));
    BlankIff(run, d, late, tail);
    hide Text, Stops, ScaleAfter, Kept, Extend, Whole, KeptDigits, Cut;
  }

  lemma BlankIff(run: string, d: Decimal, late: bool, tail: string)
    requires Shaped(d) && (late ==> MayBeLate(d)) && run == Text(d, late) + tail && (tail != "" ==> Stops(d, tail[0]))
    ensures run == Spaces(d.spaces) <==> !HasDigits(d) && d.sign == 0 && !d.point && tail == ""
  {
    TextIsLaid(d, late, tail);
    assert |run| == TextLength(d) + |tail|;
    hide Text, Laid, Stops;
    if !HasDigits(d) && d.sign == 0 && !d.point && tail == "" {
      PlainBlank(d, late);
    }
  }

  lemma PlainBlank(d: Decimal, late: bool)
    requires !HasDigits(d) && d.sign == 0 && !d.point && !late
    ensures Text(d, late) + "" == Spaces(d.spaces)
  {
  }

  /** A decimal fails exactly when its whole part does not fit, or a fraction digit past the 32nd does not. */
  lemma DecimalFailsIff(d: Decimal)
    requires DecimalOk(d)
    ensures FixedOf(DecimalText(d)).Failed? <==> Whole(d) > INT32_MAX || 32 <= KeptDigits(d) < |d.frac|
  {
    SpelledIsVerdict(d, false, "");
    assert DecimalText(d) + "" == DecimalText(d);
  }

  /** Value and scale are the decimal cut to the digits kept, as long as those are at most nine. */
  lemma DecimalIsRead(d: Decimal)
    requires DecimalOk(d) && Whole(d) <= INT32_MAX && KeptDigits(d) <= 9
    ensures FixedOf(DecimalText(d)) == Parsed(Signed(d.sign, Cut(d)), Pow10(KeptDigits(d)))
  {
    SpelledIsVerdict(d, false, "");
    ScaleIsPowerIff(KeptDigits(d));
    assert DecimalText(d) + "" == DecimalText(d);
  }

  /** The cut value is the exact decimal truncated towards zero: less than one unit of 1/scale is lost, and no more digits would fit. */
  lemma CutIsTruncation(d: Decimal, k: nat)
    requires Shaped(d) && Whole(d) <= INT32_MAX && k <= |d.frac|
    ensures Cut(d) <= INT32_MAX
    ensures Cut(d) * Pow10(|d.frac| - KeptDigits(d)) <= Exact(d) < (Cut(d) + 1) * Pow10(|d.frac| - KeptDigits(d))
    ensures Extend(Whole(d), d.frac, 0, k) <= INT32_MAX <==> k <= KeptDigits(d)
  {
    CutTruncates(Whole(d), d.frac, 0, KeptDigits(d), |d.frac|);
    KeptIsLongest(Whole(d), d.frac, 0, KeptDigits(d));
    KeptIsLongest(Whole(d), d.frac, 0, k);
  }

  /** The scale has no guard of its own: the result is right exactly when at most nine fraction digits are kept. */
  lemma ScaleIsRightIff(d: Decimal)
    requires DecimalOk(d) && Whole(d) <= INT32_MAX
    ensures FixedOf(DecimalText(d)) == Parsed(Signed(d.sign, Cut(d)), Pow10(KeptDigits(d))) <==> KeptDigits(d) <= 9
  {
    SpelledIsVerdict(d, false, "");
    ScaleIsPowerIff(KeptDigits(d));
    assert DecimalText(d) + "" == DecimalText(d);
    if KeptDigits(d) > 9 {
      TenDigitsDoNotFit(KeptDigits(d));
    }
  }

  // ---------- what happens beyond nine digits ----------

  function Zeros(n: nat): (s: string)
    ensures |s| == n && forall i :: 0 <= i < n ==> s[i] == '0'
  {
    seq(n, _ => '0')
  }

  lemma {:induction false} ZerosAreKept(s: string, n: nat, i: nat)
    requires i <= n <= |s| && AllDigits(s) && forall j :: 0 <= j < n ==> s[j] == '0'
    ensures Kept(0, s, i) == (n - i) + Kept(0, s, n)
    decreases n - i
  {
    if i < n {
      ZerosAreKept(s, n, i + 1);
    }
  }

  /** "0." followed by ten or more zeros: the scale that comes out is not the power of ten it should be. */
  lemma ManyZerosBreakTheScale(n: nat)
    requires 10 <= n
    ensures var d := Decimal(0, 0, "0", true, Zeros(n));
            DecimalOk(d) && Whole(d) == 0 && KeptDigits(d) == n && FixedOf(DecimalText(d)) != Parsed(Signed(0, Cut(d)), Pow10(n))
  {
    var d := Decimal(0, 0, "0", true, Zeros(n));
    assert Extend(0, "0", 0, 1) == 0;
    ZerosAreKept(Zeros(n), n, 0);
    ScaleIsRightIff(d);
  }

  /** "0.", 23 or more zeros and ten nines: the last digit does not fit, and the field fails although its whole part is 0. */
  lemma LongFractionFails(n: nat)
    requires 23 <= n
    ensures var d := Decimal(0, 0, "0", true, Zeros(n) + "9999999999");
            DecimalOk(d) && Whole(d) == 0 && FixedOf(DecimalText(d)).Failed?
  {
    var s := Zeros(n) + "9999999999";
    var d := Decimal(0, 0, "0", true, s);
    assert Extend(0, "0", 0, 1) == 0;
    ZerosAreKept(s, n, 0);
    TenNines(s, n);
    hide Zeros, Kept, Extend;
    DecimalFailsIff(d);
  }

  lemma TenNines(s: string, n: nat)
    requires |s| == n + 10 && AllDigits(s) && forall j :: n <= j < n + 10 ==> s[j] == '9'
    ensures Kept(0, s, n) == 9
  {
    assert Kept(999_999_999, s, n + 9) == 0;
    assert Kept(99_999_999, s, n + 8) == 1;
    assert Kept(9_999_999, s, n + 7) == 2;
    assert Kept(999_999, s, n + 6) == 3;
    assert Kept(99_999, s, n + 5) == 4;
    assert Kept(9_999, s, n + 4) == 5;
    assert Kept(999, s, n + 3) == 6;
    assert Kept(99, s, n + 2) == 7;
    assert Kept(9, s, n + 1) == 8;
  }

  /** "0.", 32 or more zeros and ".5": the scale is gone, a second point starts a new one, and the field reads as 5/10. */
  lemma SecondPointIsAccepted(n: nat, tail: string)
    requires 32 <= n && tail == ".5"
    ensures FixedOf(DecimalText(Decimal(0, 0, "0", true, Zeros(n))) + tail) == Parsed(5, 10)
  {
    var d := Decimal(0, 0, "0", true, Zeros(n));
    assert Extend(0, "0", 0, 1) == 0;
    ZerosAreKept(Zeros(n), n, 0);
    AllZeros(n, n);
    FiveTenths(tail);
    assert Stops(d, tail[0]);
    hide Zeros, Kept, Extend, DecimalText, FurtherPoint;
    SpelledIsVerdict(d, false, tail);
  }

  lemma FiveTenths(t: string)
    requires t == ".5"
    ensures FurtherPoint(0, 0, t, 0) == Parsed(5, 10)
  {
    DigitsEndIs(t, 1, 2);
    assert t[1..2] == "5";
    assert Kept(0, "5", 0) == 1 && Extend(0, "5", 0, 1) == 5;
    assert ScaleAfter(1) == 10;
  }

  lemma {:induction false} AllZeros(n: nat, k: nat)
    requires k <= n
    ensures Extend(0, Zeros(n), 0, k) == 0
  {
    if k > 0 {
      AllZeros(n, k - 1);
    }
  }

  /** A field without a character, or with spaces only, reads as value 0 and scale 0. */
  lemma BlankIsZero(n: nat)
    ensures FixedOf(Spaces(n)) == Parsed(0, 0)
  {
    SkipSpaces(Spaces(n), n, 0);
  }
}
