/** The scanner as it runs: one cursor over the sentence, one over the field, one over the format. */
module NmeaScanner {
  import opened CStrings
  import opened NmeaFixed
  import opened NmeaScan

  /** The characters of a run, read from the sentence. */
  lemma RunChar(s: string, p: nat, j: nat)
    requires p <= |s|
    ensures var e := RunEnd(s, p);
            && (j < e - p ==> At(s, p + j) == s[p..e][j] && IsField(At(s, p + j)))
            && (j == e - p ==> !IsField(At(s, p + j)))
  {
  }

  function RunOf(v: View): string {
    if v.Present? then v.run else ""
  }

  /** The decimal loop: reads while there are field characters, and leaves early on an error or when 32 bits are full. */
  method ScanFixed(s: string, field: Cursor) returns (r: Parsed)
    requires field.Pos? ==> field.i <= |s|
    ensures r == FixedOf(RunOf(ViewOf(s, field)))
  {
    var sign, value, scale := 0, -1, 0;
    ghost var run := RunOf(ViewOf(s, field));
    if field.Pos? {
      var p: nat := 0;
      while IsField(At(s, field.i + p))
        invariant p <= |run| && -1 <= value <= INT32_MAX
        invariant FixLoop(run, p, Fix(sign, value, scale)) == FixLoop(run, 0, START)
        decreases |run| - p
      {
        RunChar(s, field.i, p);
        var c := At(s, field.i + p);
        var done, bad;
        sign, value, scale, done, bad := FixedChar(c, sign, value, scale);
        if bad {
          return Failed;
        }
        if done {
          break;
        }
        p := p + 1;
      }
      RunChar(s, field.i, p);
      assert FixLoop(run, 0, START) == Fix(sign, value, scale);
    }
    if (sign != 0 || scale != 0) && value == -1 {
      return Failed;
    }
    if value == -1 {
      value, scale := 0, 0;
    } else if scale == 0 {
      scale := 1;
    }
    if sign != 0 {
      value := value * sign;
    }
    r := Parsed(value, scale);
  }

  /** One round of that loop. */
  method FixedChar(c: char, sign: int, value: int, scale: int)
      returns (sign': int, value': int, scale': int, done: bool, bad: bool)
    requires -1 <= value <= INT32_MAX
    ensures bad <==> FixStep(Fix(sign, value, scale), c).0.Bad?
    ensures !bad ==> FixStep(Fix(sign, value, scale), c) == (Fix(sign', value', scale'), done)
  {
    sign', value', scale', done, bad := sign, value, scale, false, false;
    if c == '+' && sign == 0 && value == -1 {
      sign' := 1;
    } else if c == '-' && sign == 0 && value == -1 {
      sign' := -1;
    } else if IsDigit(c) {
      var digit := Digit(c);
      var v := if value == -1 then 0 else value;
      if v > (INT32_MAX - digit) / 10 {
        done, bad := true, scale == 0;
        return;
      }
      value' := 10 * v + digit;
      if scale != 0 {
        scale' := Wrap32(scale * 10);
      }
    } else if c == '.' && scale == 0 {
      scale' := 1;
    } else if c == ' ' {
      bad := sign != 0 || value != -1 || scale != 0;
    } else {
      bad := true;
    }
  }

  method ScanString(s: string, field: Cursor) returns (buf: string)
    requires field.Pos? ==> field.i <= |s|
    ensures buf == RunOf(ViewOf(s, field))
  {
    buf := "";
    if field.Pos? {
      ghost var run := RunOf(ViewOf(s, field));
      while IsField(At(s, field.i + |buf|))
        invariant |buf| <= |run| && buf == run[..|buf|]
        decreases |run| - |buf|
      {
        RunChar(s, field.i, |buf|);
        buf := buf + [At(s, field.i + |buf|)];
      }
      RunChar(s, field.i, |buf|);
    }
  }

  /** Whether n digits stand at the field; a digit is a field character, so the run then has them all. */
  method DigitsStandAt(s: string, p: nat, n: nat) returns (ok: bool)
    requires p <= |s|
    ensures var run := s[p..RunEnd(s, p)]; ok <==> n <= |run| && forall j :: 0 <= j < n ==> IsDigit(run[j])
  {
    ghost var run := s[p..RunEnd(s, p)];
    var f := 0;
    while f < n
      invariant 0 <= f <= n && f <= |run| && forall j :: 0 <= j < f ==> IsDigit(run[j])
    {
      RunChar(s, p, f);
      if !IsDigit(At(s, p + f)) {
        return false;
      }
      f := f + 1;
    }
    ok := true;
  }

  /** The text of two digits as a number, read back from the sentence. */
  lemma TwoDigitsAt(s: string, p: nat, i: nat)
    requires p <= |s| && SixDigits(s[p..RunEnd(s, p)]) && i <= 4
    ensures var run := s[p..RunEnd(s, p)];
            && IsDigit(run[i]) && IsDigit(run[i + 1]) && At(s, p + i) == run[i] && At(s, p + i + 1) == run[i + 1]
            && TwoDigits(run, i) == 10 * Digit(At(s, p + i)) + Digit(At(s, p + i + 1))
  {
    RunChar(s, p, i);
    RunChar(s, p, i + 1);
  }

  method ScanDate(s: string, field: Cursor) returns (r: Result)
    requires field.Pos? ==> field.i <= |s|
    ensures r == DateOf(RunOf(ViewOf(s, field)))
  {
    if field.Null? || !IsField(At(s, field.i)) {
      if field.Pos? { RunChar(s, field.i, 0); }
      return Done([DateValue(-1, -1, -1)]);
    }
    var p := field.i;
    RunChar(s, p, 0);
    var ok := DigitsStandAt(s, p, 6);
    if !ok {
      return Fail;
    }
    TwoDigitsAt(s, p, 0);
    TwoDigitsAt(s, p, 2);
    TwoDigitsAt(s, p, 4);
    var d := 10 * Digit(At(s, p)) + Digit(At(s, p + 1));
    var m := 10 * Digit(At(s, p + 2)) + Digit(At(s, p + 3));
    var y := 10 * Digit(At(s, p + 4)) + Digit(At(s, p + 5));
    r := Done([DateValue(d, m, y)]);
  }

  /** The fraction of a second at q: at most six digits, scaled to microseconds. */
  method ScanMicros(s: string, p: nat, i: nat) returns (u: int)
    requires p <= |s| && p + i <= RunEnd(s, p)
    ensures u == Micros(s[p..RunEnd(s, p)], i)
  {
    ghost var run := s[p..RunEnd(s, p)];
    var value, scale, k: nat := 0, 1_000_000, 0;
    SixZeros();
    while IsDigit(At(s, p + i + k)) && scale > 1
      invariant k <= 6 && i + k <= |run| && scale == Pow10(6 - k)
      invariant forall j :: i <= j < i + k ==> IsDigit(run[j])
      invariant value == Extend(0, run, i, i + k)
      decreases |run| - k
    {
      RunChar(s, p, i + k);
      value := value * 10 + Digit(At(s, p + i + k));
      scale := scale / 10;
      k := k + 1;
    }
    RunChar(s, p, i + k);
    MicroDigitsAre(run, i, k);
    u := value * scale;
  }

  lemma MicroDigitsAre(run: string, i: nat, k: nat)
    requires k <= 6 && i + k <= |run| && forall j :: i <= j < i + k ==> IsDigit(run[j])
    requires k == 6 || i + k == |run| || !IsDigit(run[i + k])
    ensures MicroDigits(run, i) == k
  {
    var e := DigitsEnd(run, i);
    assert e < |run| ==> At(run, e) == run[e];
  }

  method ScanTime(s: string, field: Cursor) returns (r: Result)
    requires field.Pos? ==> field.i <= |s|
    ensures r == TimeOf(RunOf(ViewOf(s, field)))
  {
    if field.Null? || !IsField(At(s, field.i)) {
      if field.Pos? { RunChar(s, field.i, 0); }
      return Done([TimeValue(-1, -1, -1, -1)]);
    }
    var p := field.i;
    RunChar(s, p, 0);
    var ok := DigitsStandAt(s, p, 6);
    if !ok {
      return Fail;
    }
    TwoDigitsAt(s, p, 0);
    TwoDigitsAt(s, p, 2);
    TwoDigitsAt(s, p, 4);
    var h := 10 * Digit(At(s, p)) + Digit(At(s, p + 1));
    var m := 10 * Digit(At(s, p + 2)) + Digit(At(s, p + 3));
    var sec := 10 * Digit(At(s, p + 4)) + Digit(At(s, p + 5));
    var u := 0;
    RunChar(s, p, 6);
    if At(s, p + 6) == '.' {
      u := ScanMicros(s, p, 7);
    }
    r := Done([TimeValue(h, m, sec, u)]);
  }

  /** '$' and five field characters; the field must be there. */
  method ScanType(s: string, field: Cursor) returns (r: Result)
    requires field.Pos? ==> field.i <= |s|
    ensures r == if field.Null? then Fail else TypeOf(RunOf(ViewOf(s, field)))
  {
    if field.Null? {
      return Fail;
    }
    var p := field.i;
    ghost var run := RunOf(ViewOf(s, field));
    RunChar(s, p, 0);
    if At(s, p) != '$' {
      return Fail;
    }
    var f := 0;
    while f < 5
      invariant 0 <= f <= 5 && f + 1 <= |run|
    {
      RunChar(s, p, f + 1);
      if !IsField(At(s, p + 1 + f)) {
        return Fail;
      }
      f := f + 1;
    }
    forall j | 0 <= j < 5
      ensures s[p + 1..p + 6][j] == run[1..6][j]
    {
      RunChar(s, p, j + 1);
    }
    assert s[p + 1..p + 6] == run[1..6];
    r := Done([TypeValue(s[p + 1..p + 6])]);
  }

  method ScanDirection(s: string, field: Cursor) returns (r: Result)
    requires field.Pos? ==> field.i <= |s|
    ensures r == DirectionOf(RunOf(ViewOf(s, field)))
  {
    var value := 0;
    if field.Pos? {
      RunChar(s, field.i, 0);
      var c := At(s, field.i);
      if IsField(c) {
        if c == 'N' || c == 'E' {
          value := 1;
        } else if c == 'S' || c == 'W' {
          value := -1;
        } else {
          return Fail;
        }
      }
    }
    r := Done([DirectionValue(value)]);
  }

  method ScanInt(s: string, field: Cursor) returns (r: Result)
    requires field.Pos? ==> field.i <= |s|
    ensures var v := ViewOf(s, field); r == if v.Absent? then Done([IntValue(0)]) else IntOf(v.run + v.rest)
  {
    hide Strtol, RunEnd;
    if field.Null? {
      return Done([IntValue(0)]);
    }
    assert s[field.i..] == s[field.i..RunEnd(s, field.i)] + s[RunEnd(s, field.i)..];
    var (value, end) := Strtol(s[field.i..]);
    if IsField(At(s[field.i..], end)) {
      return Fail;
    }
    r := Done([IntValue(Wrap32(value))]);
  }

  /** The switch over the format character. */
  method ScanField(s: string, type_: char, field: Cursor) returns (r: Result)
    requires field.Pos? ==> field.i <= |s|
    ensures r == ParseField(type_, ViewOf(s, field))
  {
    match type_
    case 'c' =>
      var value := NUL;
      if field.Pos? {
        RunChar(s, field.i, 0);
        if IsField(At(s, field.i)) {
          value := At(s, field.i);
        }
      }
      r := Done([CharValue(value)]);
    case 'd' => r := ScanDirection(s, field);
    case 'f' =>
      var f := ScanFixed(s, field);
      r := if f.Failed? then Fail else Done([FixedValue(f.value, f.scale)]);
    case 'i' => r := ScanInt(s, field);
    case 's' =>
      var buf := ScanString(s, field);
      r := Done([StringValue(buf)]);
    case 't' => r := ScanType(s, field);
    case 'D' => r := ScanDate(s, field);
    case 'T' => r := ScanTime(s, field);
    case '_' => r := Done([]);
    case _ => r := Fail;
  }

  /** The next_field macro: moves the sentence cursor over the run, and over a comma if one follows. */
  method NextFieldCursor(s: string, sentence: nat) returns (sentence': nat, field: Cursor)
    requires sentence <= |s|
    ensures sentence' <= |s|
    ensures field == NextField(s, Pos(sentence))
    ensures field.Pos? ==> field.i == sentence'
    ensures field.Null? ==> !IsField(At(s, sentence')) && At(s, sentence') != ','
  {
    sentence' := sentence;
    while IsField(At(s, sentence'))
      invariant sentence <= sentence' <= |s| && forall j :: sentence <= j < sentence' ==> IsField(s[j])
      decreases |s| - sentence'
    {
      sentence' := sentence' + 1;
    }
    RunEndIs(s, sentence, sentence');
    if At(s, sentence') == ',' {
      sentence' := sentence' + 1;
      field := Pos(sentence');
    } else {
      field := Null;
    }
  }

  /** The whole scan: succeeds when no field stops it, and hands out the values of the fields before the one that does. */
  method Scan(s: string, format: string) returns (result: bool, out: seq<Value>)
    ensures var ds := Directives(format, 0, false);
            && (result <==> forall k :: 0 <= k < |ds| ==> FieldOk(s, ds, k))
            && out == Outputs(s, ds, StopOf(s, ds, 0))
  {
    hide ParseField, ViewOf, RunEnd, IsField;
    ghost var ds := Directives(format, 0, false);
    ghost var n := 0;
    var optional := false;
    var sentence: nat, field, f: nat := 0, Pos(0), 0;
    out := [];
    while f < |format|
      invariant f <= |format| && n <= |ds| && ds[n..] == Directives(format, f, optional)
      invariant forall k :: 0 <= k < n ==> FieldOk(s, ds, k)
      invariant out == Outputs(s, ds, n)
      invariant field == FieldAt(s, n) && sentence <= |s|
      invariant if field.Pos? then field.i == sentence else !IsField(At(s, sentence)) && At(s, sentence) != ','
    {
      var type_ := format[f];
      f := f + 1;
      if type_ == ';' {
        optional := true;
        continue;
      }
      assert ds[n] == ds[n..][0] == Directive(type_, optional);
      FieldOkMeans(s, ds, n);
      if field.Null? && !optional {
        StopOfIs(s, ds, n);
        return false, out;
      }
      var r := ScanField(s, type_, field);
      if r.Fail? {
        StopOfIs(s, ds, n);
        return false, out;
      }
      assert FieldOk(s, ds, n);
      out := out + r.out;
      assert ds[n + 1..] == ds[n..][1..];
      n := n + 1;
      ghost var before := field;
      sentence, field := NextFieldCursor(s, sentence);
      NullStays(s, before, sentence, field);
    }
    StopOfIs(s, ds, n);
    result := true;
  }

  lemma FieldOkMeans(s: string, ds: seq<Directive>, n: nat)
    requires n < |ds|
    ensures FieldOk(s, ds, n) <==>
            (FieldAt(s, n).Pos? || ds[n].optional) && ParseField(ds[n].type_, ViewOf(s, FieldAt(s, n))).Done?
  {
    hide ParseField;
  }

  lemma NullStays(s: string, before: Cursor, sentence: nat, field: Cursor)
    requires before.Pos? ==> before.i <= |s|
    ensures before.Null? ==> NextField(s, before) == Null
  {
  }
}
