/** The integer field: the only case that looks past its own run, exactly when it does, and what it reads. */
module NmeaInt {
  import opened CStrings
  import opened NmeaFixed
  import opened NmeaScan
  import opened NmeaDecimal

  /** run is a run of field characters, and rest what stands behind it. */
  ghost predicate IsRun(run: string, rest: string) {
    (forall j :: 0 <= j < |run| ==> IsField(run[j])) && (rest != "" ==> !IsField(rest[0]))
  }

  lemma AtConcat(run: string, rest: string, i: nat)
    requires i <= |run|
    ensures At(run + rest, i) == if i < |run| then run[i] else At(rest, 0)
  {
  }

  lemma SpaceIsLocal(run: string, rest: string)
    requires SpaceEnd(run, 0) < |run| || !IsSpace(At(rest, 0))
    ensures SpaceEnd(run + rest, 0) == SpaceEnd(run, 0)
  {
    hide IsSpace;
    AtConcat(run, rest, SpaceEnd(run, 0));
    SpaceEndIs(run + rest, 0, SpaceEnd(run, 0));
  }

  lemma DigitsAreLocal(run: string, rest: string, k: nat)
    requires IsRun(run, rest) && k <= |run|
    ensures DigitsEnd(run + rest, k) == DigitsEnd(run, k)
    ensures Extend(0, run + rest, k, DigitsEnd(run, k)) == Extend(0, run, k, DigitsEnd(run, k))
  {
    var e := DigitsEnd(run, k);
    AtConcat(run, rest, e);
    DigitsEndIs(run + rest, k, e);
    ExtendOfPrefix(run, run + rest, k, e);
  }

  lemma StrtolParts(t: string, j: nat, k: nat, e: nat)
    requires j == SpaceEnd(t, 0) && k == (if At(t, j) == '+' || At(t, j) == '-' then j + 1 else j) && e == DigitsEnd(t, k)
    ensures Strtol(t) == if e == k then (0, 0) else (Clamp(At(t, j) == '-', Extend(0, t, k, e)), e)
  {
    hide SpaceEnd, DigitsEnd, Extend, IsSpace, Clamp;
  }

  lemma StrtolIsLocal(run: string, rest: string)
    requires IsRun(run, rest)
    requires SpaceEnd(run, 0) < |run| || !IsSpace(At(rest, 0))
    ensures Strtol(run + rest) == Strtol(run)
  {
    hide SpaceEnd, DigitsEnd, Extend, IsSpace, Clamp, Strtol, IsRun;
    var j := SpaceEnd(run, 0);
    SpaceIsLocal(run, rest);
    AtConcat(run, rest, j);
    NoSignBehind(run, rest);
    var k := if At(run, j) == '+' || At(run, j) == '-' then j + 1 else j;
    DigitsAreLocal(run, rest, k);
    StrtolParts(run, j, k, DigitsEnd(run, k));
    StrtolParts(run + rest, j, k, DigitsEnd(run, k));
  }

  lemma NoSignBehind(run: string, rest: string)
    requires IsRun(run, rest)
    ensures At(rest, 0) != '+' && At(rest, 0) != '-' && !IsField(At(rest, 0)) && !IsField(NUL)
  {
  }

  lemma LocalWhenNotBlank(run: string, rest: string)
    requires IsRun(run, rest) && SpaceEnd(run, 0) < |run|
    ensures IntOf(run + rest) == IntOf(run)
  {
    StrtolIsLocal(run, rest);
    EndsInRun(run);
    NoSignBehind(run, rest);
    hide Strtol, IsField, Wrap32, IsRun;
    AtConcat(run, rest, Strtol(run).1);
  }

  lemma EndsInRun(run: string)
    ensures Strtol(run).1 <= |run|
  {
    hide SpaceEnd, DigitsEnd, Extend, IsSpace;
  }

  // ---------- blank runs ----------

  /** Where the number that starts at the front of t, behind white space, has its digits. */
  function DigitsFrom(t: string): (k: nat)
    ensures k <= |t|
  {
    var j := SpaceEnd(t, 0);
    if At(t, j) == '+' || At(t, j) == '-' then j + 1 else j
  }

  /**
   * run is blank, and behind it, in rest, an optional sign and a digit stand behind white space. Then the number counts: if
   * run is empty, unless it is zero in 32 bits and no field character follows it; if run has blanks, unless one does.
   */
  ghost predicate Reaches(run: string, rest: string) {
    && SpaceEnd(run, 0) == |run|
    && IsDigit(At(rest, DigitsFrom(rest)))
    && var k := DigitsFrom(rest);
       var e := DigitsEnd(rest, k);
       if run == "" then IsField(At(rest, e)) || Wrap32(Clamp(At(rest, SpaceEnd(rest, 0)) == '-', Extend(0, rest, k, e))) != 0
       else !IsField(At(rest, e))
  }

  lemma AtBehind(run: string, rest: string, i: nat)
    requires i <= |rest|
    ensures At(run + rest, |run| + i) == At(rest, i)
  {
  }

  lemma SpaceBehindBlank(run: string, rest: string)
    requires SpaceEnd(run, 0) == |run|
    ensures SpaceEnd(run + rest, 0) == |run| + SpaceEnd(rest, 0)
  {
    hide IsSpace;
    AtBehind(run, rest, SpaceEnd(rest, 0));
    SpaceEndIs(run + rest, 0, |run| + SpaceEnd(rest, 0));
  }

  lemma {:induction false} ExtendBehind(run: string, rest: string, k: nat, e: nat)
    requires k <= e <= |rest| && forall j :: k <= j < e ==> IsDigit(rest[j])
    ensures forall j :: |run| + k <= j < |run| + e ==> IsDigit((run + rest)[j])
    ensures Extend(0, run + rest, |run| + k, |run| + e) == Extend(0, rest, k, e)
  {
    if k < e {
      ExtendBehind(run, rest, k, e - 1);
    }
  }

  /** A blank run is skipped: the number behind it is found as it would be without the run. */
  lemma StrtolBehindBlank(run: string, rest: string)
    requires SpaceEnd(run, 0) == |run|
    ensures var (v, e) := Strtol(rest); Strtol(run + rest) == if e == 0 then (0, 0) else (v, |run| + e)
  {
    hide SpaceEnd, DigitsEnd, Extend, IsSpace, Clamp, IsDigit, Strtol;
    var t, j, k := run + rest, SpaceEnd(rest, 0), DigitsFrom(rest);
    var e := DigitsEnd(rest, k);
    SpaceBehindBlank(run, rest);
    DigitsBehindBlank(run, rest, k);
    AtBehind(run, rest, j);
    hide At;
    StrtolParts(rest, j, k, e);
    StrtolParts(t, |run| + j, |run| + k, |run| + e);
  }

  lemma DigitsBehindBlank(run: string, rest: string, k: nat)
    requires k <= |rest|
    ensures var e := DigitsEnd(rest, k);
            && DigitsEnd(run + rest, |run| + k) == |run| + e
            && Extend(0, run + rest, |run| + k, |run| + e) == Extend(0, rest, k, e)
  {
    var e := DigitsEnd(rest, k);
    ExtendBehind(run, rest, k, e);
    AtBehind(run, rest, e);
    DigitsEndIs(run + rest, |run| + k, |run| + e);
  }

  lemma StrtolOfNumber(t: string)
    ensures var (v, e) := Strtol(t); var k := DigitsFrom(t);
            && (e != 0 <==> IsDigit(At(t, k)))
            && (e != 0 ==> e == DigitsEnd(t, k) && v == Clamp(At(t, SpaceEnd(t, 0)) == '-', Extend(0, t, k, e)))
            && (e == 0 ==> v == 0)
  {
    hide SpaceEnd, Extend, IsSpace, Clamp;
  }

  /** The integer field depends on its own run exactly when no number behind a blank run is reached. */
  lemma IntIsLocalIff(run: string, rest: string)
    requires IsRun(run, rest)
    ensures IntOf(run + rest) == IntOf(run) <==> !Reaches(run, rest)
  {
    if SpaceEnd(run, 0) < |run| {
      LocalWhenNotBlank(run, rest);
    } else {
      StrtolBehindBlank(run, rest);
      StrtolOfNumber(rest);
      BlankAlone(run);
      NoSignBehind(run, rest);
      AtConcat(run, rest, 0);
      if run != "" {
        FirstIsField(run, rest);
      }
      assert Wrap32(0) == 0;
      hide Strtol, SpaceEnd, DigitsEnd, Extend, IsSpace, Clamp, Wrap32, IsField, IsDigit, IsRun, DigitsFrom;
    }
  }

  lemma FirstIsField(run: string, rest: string)
    requires IsRun(run, rest) && run != ""
    ensures IsField(run[0])
  {
  }

  lemma BlankAlone(run: string)
    requires SpaceEnd(run, 0) == |run|
    ensures Strtol(run) == (0, 0) && IntOf(run) == if IsField(At(run, 0)) then Fail else Done([IntValue(0)])
  {
    hide SpaceEnd, Extend, IsSpace, Clamp, IsField;
    assert At(run, |run|) == NUL;
  }

  lemma NextLine(t: string)
    requires t == "\n5"
    ensures SpaceEnd(t, 0) == DigitsFrom(t) == 1 && DigitsEnd(t, 1) == 2 && Extend(0, t, 1, 2) == 5 && !IsField(At(t, 2))
  {
    SpaceEndIs(t, 0, 1);
    DigitsEndIs(t, 1, 2);
    assert Extend(0, t, 1, 1) == 0;
  }

  /** A blank field before the line "5" reads as 5, though on its own it reads as 0 if it is empty and fails if it is not. */
  lemma IntCrossesLines(run: string)
    requires IsRun(run, "\n5") && SpaceEnd(run, 0) == |run|
    ensures IntOf(run + "\n5") == Done([IntValue(5)])
    ensures IntOf(run) == if run == "" then Done([IntValue(0)]) else Fail
  {
    var t := "\n5";
    NextLine(t);
    StrtolBehindBlank(run, t);
    StrtolOfNumber(t);
    BlankAlone(run);
    SpaceBehindBlank(run, t);
    if run != "" {
      FirstIsField(run, t);
    }
    hide Strtol, SpaceEnd, DigitsEnd, Extend, IsSpace, IsRun, DigitsFrom;
  }

  /** A field's text decides its value whatever stands behind it exactly when the field is not blank. */
  lemma AlwaysLocalIffNotBlank(run: string)
    requires forall j :: 0 <= j < |run| ==> IsField(run[j])
    ensures (forall rest :: IsRun(run, rest) ==> IntOf(run + rest) == IntOf(run)) <==> SpaceEnd(run, 0) < |run|
  {
    forall rest | IsRun(run, rest) && SpaceEnd(run, 0) < |run|
      ensures IntOf(run + rest) == IntOf(run)
    {
      LocalWhenNotBlank(run, rest);
    }
    if SpaceEnd(run, 0) == |run| {
      assert IsRun(run, "\n5");
      IntCrossesLines(run);
    }
  }

  // ---------- what is read ----------

  /** Fields of their own are accepted exactly when they are empty, or spaces, a sign and digits to the end. */
  lemma IntSucceedsIff(run: string)
    requires forall j :: 0 <= j < |run| ==> IsField(run[j])
    ensures IntOf(run).Done? <==> run == "" || DigitsFrom(run) < DigitsEnd(run, DigitsFrom(run)) == |run|
  {
    StrtolOfNumber(run);
    hide Strtol, DigitsFrom, Wrap32;
  }

  ghost predicate AllSpace(s: string) {
    forall i :: 0 <= i < |s| ==> s[i] == ' ' || '\t' <= s[i] <= '\r'
  }

  /** White space, a sign and digits, with something behind them. */
  function NumberText(space: string, sign: int, digits: string, rest: string): string {
    space + (SignText(sign) + (digits + rest))
  }

  /** They are read as the number they write, clamped to 64 bits and cut to 32: exactly if it fits 32. */
  lemma IntIsRead(space: string, sign: int, digits: string, rest: string)
    requires AllSpace(space) && -1 <= sign <= 1 && AllDigits(digits) && digits != "" && (rest != "" ==> !IsDigit(rest[0]))
    ensures var v := Extend(0, digits, 0, |digits|);
            && IntOf(NumberText(space, sign, digits, rest)) ==
               (if IsField(At(rest, 0)) then Fail else Done([IntValue(Wrap32(Clamp(sign == -1, v)))]))
            && (-INT32_MAX - 1 <= Signed(sign, v) <= INT32_MAX ==> Wrap32(Clamp(sign == -1, v)) == Signed(sign, v))
  {
    hide Strtol, Extend, Clamp, Wrap32, SignText, NumberAt, NumberText, IntOf, AllSpace, IsField, At;
    var t := NumberText(space, sign, digits, rest);
    NumberStands(t, space, sign, digits, rest);
    SignedNumberIsRead(t, |space|, |space| + |SignText(sign)|, digits, sign, Extend(0, digits, 0, |digits|));
  }

  lemma SignedNumberIsRead(t: string, j: nat, k: nat, digits: string, sign: int, v: nat)
    requires NumberAt(t, j, k, digits) && (At(t, j) == '-' <==> sign == -1)
    requires AllDigits(digits) && digits != "" && v == Extend(0, digits, 0, |digits|)
    ensures IntOf(t) == if IsField(At(t, k + |digits|)) then Fail else Done([IntValue(Wrap32(Clamp(sign == -1, v)))])
    ensures -INT32_MAX - 1 <= Signed(sign, v) <= INT32_MAX ==> Wrap32(Clamp(sign == -1, v)) == Signed(sign, v)
  {
    NumberIsRead(t, j, k, digits);
    hide Strtol, Extend, Clamp, Wrap32, NumberAt, IntOf, IsField, At;
    if -INT32_MAX - 1 <= Signed(sign, v) <= INT32_MAX {
      InRange(sign, v);
    }
  }

  /** White space up to j, a sign if k is behind j, and then just these digits. */
  ghost predicate NumberAt(t: string, j: nat, k: nat, digits: string) {
    var e := k + |digits|;
    && j <= k && e <= |t| && (forall i :: 0 <= i < j ==> IsSpace(t[i])) && !IsSpace(At(t, j))
    && k == (if At(t, j) == '+' || At(t, j) == '-' then j + 1 else j)
    && (forall i :: k <= i < e ==> IsDigit(t[i]) && t[i] == digits[i - k]) && !IsDigit(At(t, e))
  }

  lemma NumberIsRead(t: string, j: nat, k: nat, digits: string)
    requires NumberAt(t, j, k, digits) && AllDigits(digits) && digits != ""
    ensures IntOf(t) == if IsField(At(t, k + |digits|)) then Fail
                        else Done([IntValue(Wrap32(Clamp(At(t, j) == '-', Extend(0, digits, 0, |digits|))))])
  {
    var e := k + |digits|;
    SpaceEndIs(t, 0, j);
    DigitsEndIs(t, k, e);
    ExtendShifted(t, digits, k, |digits|);
    StrtolParts(t, j, k, e);
    hide Strtol, SpaceEnd, DigitsEnd, Extend, IsSpace, IsField, Clamp, Wrap32;
  }

  lemma InRange(sign: int, v: nat)
    requires -INT32_MAX - 1 <= Signed(sign, v) <= INT32_MAX
    ensures Wrap32(Clamp(sign == -1, v)) == Signed(sign, v)
  {
  }

  lemma NumberStands(t: string, space: string, sign: int, digits: string, rest: string)
    requires AllSpace(space) && -1 <= sign <= 1 && AllDigits(digits) && digits != "" && (rest != "" ==> !IsDigit(rest[0]))
    requires t == NumberText(space, sign, digits, rest)
    ensures var j, k := |space|, |space| + |SignText(sign)|;
            NumberAt(t, j, k, digits) && (At(t, j) == '-' <==> sign == -1) && At(t, k + |digits|) == At(rest, 0)
  {
    var j, k := |space|, |space| + |SignText(sign)|;
    assert sign == 0 ==> t[j] == digits[0];
    assert sign != 0 ==> t[j] == SignText(sign)[0];
  }

  /** A number of up to 63 bits is cut to its low 32; one beyond that reads as -1, or as 0 with a minus sign. */
  lemma LargeIntIsCut(minus: bool, v: nat)
    ensures var w, x := Wrap32(Clamp(minus, v)), if minus then -(v as int) else v;
            if v <= 0x7FFF_FFFF_FFFF_FFFF then (w - x) % 0x1_0000_0000 == 0 else w == if minus then 0 else -1
  {
  }
}
