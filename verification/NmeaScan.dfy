/** The format-driven NMEA scanner, as a specification: split the sentence at its commas, then parse field by field. */
module NmeaScan {
  import opened CStrings
  import opened Machine
  import opened NmeaFixed

  /** The character a C pointer reads at position i of a string, its NUL included. */
  function At(s: string, i: nat): char {
    if i < |s| then s[i] else NUL
  }

  predicate IsPrint(c: char) {
    ' ' <= c <= '~'
  }

  predicate IsField(c: char) {
    IsPrint(c) && c != ',' && c != '*'
  }

  /** isspace in the C locale. */
  predicate IsSpace(c: char) {
    c == ' ' || 9 as char <= c <= 13 as char
  }

  /** The first position at or after i that holds no field character. */
  function RunEnd(s: string, i: nat): (e: nat)
    requires i <= |s|
    ensures i <= e <= |s| && !IsField(At(s, e)) && forall j :: i <= j < e ==> IsField(s[j])
    decreases |s| - i
  {
    if IsField(At(s, i)) then RunEnd(s, i + 1) else i
  }

  lemma RunEndIs(s: string, i: nat, e: nat)
    requires i <= e <= |s| && !IsField(At(s, e)) && forall j :: i <= j < e ==> IsField(s[j])
    ensures RunEnd(s, i) == e
  {
  }

  // ---------- the fields of a sentence ----------

  datatype Cursor = Null | Pos(i: nat)

  /** Where field k starts, walking from comma to comma. */
  function FieldAt(s: string, k: nat): (c: Cursor)
    ensures c.Pos? ==> c.i <= |s|
  {
    if k == 0 then Pos(0) else NextField(s, FieldAt(s, k - 1))
  }

  function NextField(s: string, c: Cursor): (c': Cursor)
    requires c.Pos? ==> c.i <= |s|
    ensures c'.Pos? ==> c'.i <= |s|
  {
    if c.Null? then Null
    else if At(s, RunEnd(s, c.i)) == ',' then Pos(RunEnd(s, c.i) + 1)
    else Null
  }

  /** What a case of the scanner can see of its field: the run of field characters, and the text behind it. */
  datatype View = Absent | Present(run: string, rest: string)

  function ViewOf(s: string, c: Cursor): View
    requires c.Pos? ==> c.i <= |s|
  {
    if c.Null? then Absent else Present(s[c.i..RunEnd(s, c.i)], s[RunEnd(s, c.i)..])
  }

  /** The part of a sentence that holds fields: up to the first unprintable character or '*'. */
  function Payload(s: string, i: nat): (e: nat)
    requires i <= |s|
    ensures i <= e <= |s|
    decreases |s| - i
  {
    if i < |s| && (IsField(s[i]) || s[i] == ',') then Payload(s, i + 1) else i
  }

  /** The first comma of t at or after i, or its end. */
  function NextComma(t: string, i: nat): (k: nat)
    requires i <= |t|
    ensures i <= k <= |t| && (k < |t| ==> t[k] == ',') && forall j :: i <= j < k ==> t[j] != ','
    decreases |t| - i
  {
    if i == |t| || t[i] == ',' then i else NextComma(t, i + 1)
  }

  /** t from position i on, split at its commas. */
  function Split(t: string, i: nat): (parts: seq<string>)
    requires i <= |t|
    ensures 1 <= |parts|
    decreases |t| - i
  {
    var k := NextComma(t, i);
    if k == |t| then [t[i..]] else [t[i..k]] + Split(t, k + 1)
  }

  lemma {:induction false} PayloadChars(s: string, i: nat)
    requires i <= |s|
    ensures var e := Payload(s, i);
            && (forall j :: i <= j < e ==> IsField(s[j]) || s[j] == ',')
            && !IsField(At(s, e)) && At(s, e) != ','
    decreases |s| - i
  {
    if i < |s| && (IsField(s[i]) || s[i] == ',') {
      PayloadChars(s, i + 1);
    }
  }

  /** One step of the walk is one step of the split. */
  lemma RunIsPart(s: string, t: string, i: nat)
    requires t == s[..Payload(s, 0)] && i <= |t|
    ensures RunEnd(s, i) == NextComma(t, i) && s[i..RunEnd(s, i)] == t[i..NextComma(t, i)]
    ensures At(s, RunEnd(s, i)) == ',' <==> NextComma(t, i) < |t|
  {
    PayloadChars(s, 0);
    var k := NextComma(t, i);
    assert forall j :: 0 <= j < |t| ==> s[j] == t[j];
    RunEndIs(s, i, k);
  }

  /** The field after the one at position i. */
  lemma NextPart(s: string, t: string, i: nat)
    requires t == s[..Payload(s, 0)] && i <= |t|
    ensures var j := NextComma(t, i);
            && NextField(s, Pos(i)) == (if j < |t| then Pos(j + 1) else Null)
            && ViewOf(s, Pos(i)).Present? && ViewOf(s, Pos(i)).run == t[i..j]
            && Split(t, i) == [t[i..j]] + (if j < |t| then Split(t, j + 1) else [])
  {
    RunIsPart(s, t, i);
  }

  lemma AbsentView(s: string)
    ensures ViewOf(s, Null) == Absent
  {
  }

  /** Field k of the walk, counted from the field at position i, is part k of the split. */
  lemma {:induction false} WalkIsSplit(s: string, t: string, i: nat, k: nat, n: nat)
    requires t == s[..Payload(s, 0)] && i <= |t| && FieldAt(s, n) == Pos(i)
    ensures var v := ViewOf(s, FieldAt(s, n + k));
            if k < |Split(t, i)| then v.Present? && v.run == Split(t, i)[k] else v.Absent?
    decreases k
  {
    hide Payload, RunEnd, NextComma, Split, ViewOf, IsField, NextField;
    NextPart(s, t, i);
    var parts, j := Split(t, i), NextComma(t, i);
    if k > 0 {
      assert FieldAt(s, n + 1) == NextField(s, FieldAt(s, n));
      hide FieldAt;
      if j < |t| {
        WalkIsSplit(s, t, j + 1, k - 1, n + 1);
        assert k < |parts| ==> parts[k] == Split(t, j + 1)[k - 1];
      } else {
        AbsentStaysAbsent(s, n + 1, k - 1);
        AbsentView(s);
      }
    }
  }

  lemma {:induction false} AbsentStaysAbsent(s: string, n: nat, k: nat)
    requires FieldAt(s, n).Null?
    ensures FieldAt(s, n + k).Null?
    decreases k
  {
    if k > 0 {
      AbsentStaysAbsent(s, n, k - 1);
    }
  }

  /** The k-th field the scanner sees is the k-th comma-separated part of the payload, and absent beyond the last. */
  lemma FieldsAreCommaSeparated(s: string, k: nat)
    ensures var parts, v := Split(s[..Payload(s, 0)], 0), ViewOf(s, FieldAt(s, k));
            if k < |parts| then v.Present? && v.run == parts[k] else v.Absent?
  {
    hide Payload, Split, ViewOf;
    WalkIsSplit(s, s[..Payload(s, 0)], 0, k, 0);
  }

  // ---------- parsing one field ----------

  datatype Value =
    | CharValue(c: char)
    | DirectionValue(sign: int)
    | FixedValue(value: int, scale: int)
    | IntValue(n: int)
    | StringValue(s: string)
    | TypeValue(id: string)
    | DateValue(day: int, month: int, year: int)
    | TimeValue(hours: int, minutes: int, seconds: int, microseconds: int)

  datatype Result = Fail | Done(out: seq<Value>)

  const LONG_MAX := 0x7FFF_FFFF_FFFF_FFFF

  function SpaceEnd(t: string, i: nat): (e: nat)
    requires i <= |t|
    ensures i <= e <= |t| && !IsSpace(At(t, e)) && forall j :: i <= j < e ==> IsSpace(t[j])
    decreases |t| - i
  {
    if IsSpace(At(t, i)) then SpaceEnd(t, i + 1) else i
  }

  function DigitsEnd(t: string, i: nat): (e: nat)
    requires i <= |t|
    ensures i <= e <= |t| && !IsDigit(At(t, e)) && forall j :: i <= j < e ==> IsDigit(t[j])
    decreases |t| - i
  {
    if IsDigit(At(t, i)) then DigitsEnd(t, i + 1) else i
  }

  /** The nearest 64-bit number. */
  function Clamp(minus: bool, v: nat): int {
    var n: int := v;
    if minus then (if n > LONG_MAX + 1 then -LONG_MAX - 1 else -n) else if n > LONG_MAX then LONG_MAX else n
  }

  /** strtol(t, &end, 10): skips white space of any kind, clamps to the 64-bit range, and does not move without a digit. */
  function Strtol(t: string): (r: (int, nat))
    ensures r.1 <= |t|
  {
    var j := SpaceEnd(t, 0);
    var k := if At(t, j) == '+' || At(t, j) == '-' then j + 1 else j;
    var e := DigitsEnd(t, k);
    if e == k then (0, 0)
    else (Clamp(At(t, j) == '-', Extend(0, t, k, e)), e)
  }

  /** The integer case looks at the whole text from its field on, and stores the result in 32 bits. */
  function IntOf(t: string): Result {
    var (v, e) := Strtol(t);
    if IsField(At(t, e)) then Fail else Done([IntValue(Wrap32(v))])
  }

  function DirectionOf(run: string): Result {
    if run == "" then Done([DirectionValue(0)])
    else if run[0] == 'N' || run[0] == 'E' then Done([DirectionValue(1)])
    else if run[0] == 'S' || run[0] == 'W' then Done([DirectionValue(-1)])
    else Fail
  }

  function FixedField(run: string): Result {
    match FixedOf(run)
    case Failed => Fail
    case Parsed(value, scale) => Done([FixedValue(value, scale)])
  }

  function TypeOf(run: string): Result {
    if 6 <= |run| && run[0] == '$' then Done([TypeValue(run[1..6])]) else Fail
  }

  ghost predicate SixDigits(run: string) {
    6 <= |run| && forall j :: 0 <= j < 6 ==> IsDigit(run[j])
  }

  /** The number in two digits at position i. */
  function TwoDigits(run: string, i: nat): int
    requires i + 2 <= |run| && IsDigit(run[i]) && IsDigit(run[i + 1])
  {
    10 * Digit(run[i]) + Digit(run[i + 1])
  }

  ghost function DateOf(run: string): Result {
    if run == "" then Done([DateValue(-1, -1, -1)])
    else if SixDigits(run) then Done([DateValue(TwoDigits(run, 0), TwoDigits(run, 2), TwoDigits(run, 4))])
    else Fail
  }

  /** The number of digits at position i of the run, at most six. */
  function MicroDigits(run: string, i: nat): (k: nat)
    requires i <= |run|
    ensures k <= 6 && i + k <= |run| && forall j :: i <= j < i + k ==> IsDigit(run[j])
  {
    var e := DigitsEnd(run, i);
    if e - i > 6 then 6 else e - i
  }

  /** A fraction of a second, cut to microseconds. */
  function Micros(run: string, i: nat): int
    requires i <= |run|
  {
    var k := MicroDigits(run, i);
    Extend(0, run, i, i + k) * Pow10(6 - k)
  }

  ghost function TimeOf(run: string): Result {
    if run == "" then Done([TimeValue(-1, -1, -1, -1)])
    else if SixDigits(run) then
      Done([TimeValue(TwoDigits(run, 0), TwoDigits(run, 2), TwoDigits(run, 4),
                      if 6 < |run| && run[6] == '.' then Micros(run, 7) else 0)])
    else Fail
  }

  /** Every case but the integer one depends on its run only. */
  ghost function ParseField(type_: char, v: View): Result {
    var run := if v.Present? then v.run else "";
    match type_
    case 'c' => Done([CharValue(At(run, 0))])
    case 'd' => DirectionOf(run)
    case 'f' => FixedField(run)
    case 'i' => if v.Absent? then Done([IntValue(0)]) else IntOf(v.run + v.rest)
    case 's' => Done([StringValue(run)])
    case 't' => if v.Absent? then Fail else TypeOf(run)
    case 'D' => DateOf(run)
    case 'T' => TimeOf(run)
    case '_' => Done([])
    case _ => Fail
  }

  // ---------- scanning a sentence ----------

  datatype Directive = Directive(type_: char, optional: bool)

  /** The format's characters other than ';', each with whether a ';' came before it. */
  function Directives(format: string, i: nat, optional: bool): seq<Directive>
    requires i <= |format|
    decreases |format| - i
  {
    if i == |format| then []
    else if format[i] == ';' then Directives(format, i + 1, true)
    else [Directive(format[i], optional)] + Directives(format, i + 1, optional)
  }

  ghost predicate FieldOk(s: string, ds: seq<Directive>, k: nat)
    requires k < |ds|
  {
    var v := ViewOf(s, FieldAt(s, k));
    (v.Present? || ds[k].optional) && ParseField(ds[k].type_, v).Done?
  }

  /** The values of the first n fields, one after the other. */
  ghost function Outputs(s: string, ds: seq<Directive>, n: nat): seq<Value>
    requires n <= |ds| && forall k :: 0 <= k < n ==> FieldOk(s, ds, k)
  {
    if n == 0 then []
    else
      assert FieldOk(s, ds, n - 1);
      Outputs(s, ds, n - 1) + ParseField(ds[n - 1].type_, ViewOf(s, FieldAt(s, n - 1))).out
  }

  /** The first field from k on that stops the scan, or the number of fields. */
  ghost function StopOf(s: string, ds: seq<Directive>, k: nat): (n: nat)
    requires k <= |ds|
    ensures k <= n <= |ds| && (n < |ds| ==> !FieldOk(s, ds, n))
    ensures forall j :: k <= j < n ==> FieldOk(s, ds, j)
    decreases |ds| - k
  {
    if k < |ds| && FieldOk(s, ds, k) then StopOf(s, ds, k + 1) else k
  }

  lemma StopOfIs(s: string, ds: seq<Directive>, n: nat)
    requires n <= |ds| && (forall k :: 0 <= k < n ==> FieldOk(s, ds, k)) && (n < |ds| ==> !FieldOk(s, ds, n))
    ensures StopOf(s, ds, 0) == n
  {
    hide FieldOk;
  }

  // ---------- digits ----------

  lemma SpaceEndIs(t: string, i: nat, e: nat)
    requires i <= e <= |t| && !IsSpace(At(t, e)) && forall j :: i <= j < e ==> IsSpace(t[j])
    ensures SpaceEnd(t, i) == e
  {
  }

  lemma DigitsEndIs(t: string, i: nat, e: nat)
    requires i <= e <= |t| && !IsDigit(At(t, e)) && forall j :: i <= j < e ==> IsDigit(t[j])
    ensures DigitsEnd(t, i) == e
  {
  }

  lemma {:induction false} ExtendOfPrefix(t: string, t': string, i: nat, n: nat)
    requires i <= n <= |t| && n <= |t'| && forall j :: i <= j < n ==> IsDigit(t[j]) && t[j] == t'[j]
    ensures Extend(0, t, i, n) == Extend(0, t', i, n)
  {
    if i < n {
      ExtendOfPrefix(t, t', i, n - 1);
    }
  }

  lemma {:induction false} ExtendShifted(t: string, digits: string, k: nat, n: nat)
    requires AllDigits(digits) && n <= |digits| && k + n <= |t| && forall i :: k <= i < k + n ==> t[i] == digits[i - k]
    ensures Extend(0, t, k, k + n) == Extend(0, digits, 0, n)
  {
    if n > 0 {
      ExtendShifted(t, digits, k, n - 1);
    }
  }

  // ---------- the fraction of a second ----------

  /** The fraction read as an integer, cut or filled up to six digits: microseconds below one second. */
  lemma MicrosAreTruncated(run: string, i: nat)
    requires i <= |run|
    ensures var e := DigitsEnd(run, i);
            && 0 <= Micros(run, i) < 1_000_000
            && (e - i <= 6 ==> Micros(run, i) == Extend(0, run, i, e) * Pow10(6 - (e - i)))
            && (6 < e - i ==> Micros(run, i) * Pow10(e - i - 6) <= Extend(0, run, i, e) < (Micros(run, i) + 1) * Pow10(e - i - 6))
  {
    hide Extend, DigitsEnd;
    var k, e := MicroDigits(run, i), DigitsEnd(run, i);
    DigitsBelowPower(run, i, k);
    Pow10Adds(k, 6 - k);
    SixZeros();
    ScaledBelow(Extend(0, run, i, i + k), Pow10(k), Pow10(6 - k));
    if 6 < e - i {
      assert Pow10(0) == 1;
      CutTruncates(0, run, i, i + 6, e);
    }
  }

  lemma ScaledBelow(a: nat, b: nat, p: nat)
    requires a < b && 1 <= p && b * p == 1_000_000
    ensures 0 <= a * p < 1_000_000
  {
    MulLess(a, b, p);
  }

  lemma SixZeros()
    ensures Pow10(6) == 1_000_000
  {
    assert Pow10(3) == 10 * (10 * (10 * Pow10(0)));
    assert Pow10(6) == 10 * (10 * (10 * Pow10(3)));
  }

  lemma {:induction false} Pow10Adds(a: nat, b: nat)
    ensures Pow10(a + b) == Pow10(a) * Pow10(b)
  {
    if a > 0 {
      Pow10Adds(a - 1, b);
    }
  }

  lemma {:induction false} DigitsBelowPower(t: string, i: nat, k: nat)
    requires i + k <= |t| && forall j :: i <= j < i + k ==> IsDigit(t[j])
    ensures Extend(0, t, i, i + k) < Pow10(k)
  {
    if k > 0 {
      DigitsBelowPower(t, i, k - 1);
    }
  }
}
