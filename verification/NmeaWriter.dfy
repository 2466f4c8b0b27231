/** What a receiver writes is what the scanner reads: whole sentences, dates and times. */
module NmeaWriter {
  import opened NmeaFixed
  import opened NmeaScan

  ghost predicate IsFieldText(t: string) {
    forall i :: 0 <= i < |t| ==> IsField(t[i])
  }

  ghost predicate AllText(fields: seq<string>) {
    forall k: nat {:trigger fields[k]} :: k < |fields| ==> IsFieldText(fields[k])
  }

  /** The fields from k on, with commas between them. */
  function Joined(fields: seq<string>, k: nat): string
    requires k < |fields|
    decreases |fields| - k
  {
    fields[k] + if k + 1 < |fields| then "," + Joined(fields, k + 1) else ""
  }

  /** What may follow the fields: nothing, a checksum, or a character that is not printed. */
  ghost predicate EndsFields(tail: string) {
    tail == "" || tail[0] == '*' || !IsPrint(tail[0])
  }

  /** The payload from a field of a written sentence on is the rest of its fields. */
  lemma {:induction false} PayloadOfJoined(s: string, i: nat, fields: seq<string>, k: nat, tail: string)
    requires k < |fields| && AllText(fields)
    requires i <= |s| && s[i..] == Joined(fields, k) + tail && EndsFields(tail)
    ensures Payload(s, i) == i + |Joined(fields, k)|
    decreases |fields| - k
  {
    var n := |fields[k]|;
    assert IsFieldText(fields[k]);
    assert forall j :: 0 <= j < n ==> s[i + j] == s[i..][j] == fields[k][j];
    assert i + n <= |s|;
    SkipField(s, i, i + n);
    hide AllText, IsFieldText;
    if k + 1 < |fields| {
      assert s[i + n] == s[i..][n] == ',';
      assert s[i + n + 1..] == s[i..][n + 1..] == Joined(fields, k + 1) + tail;
      PayloadOfJoined(s, i + n + 1, fields, k + 1, tail);
    } else {
      assert s[i + n..] == s[i..][n..] == tail;
      assert tail != "" ==> s[i + n] == tail[0];
    }
  }

  lemma {:induction false} SkipField(s: string, i: nat, e: nat)
    requires i <= e <= |s| && forall j :: i <= j < e ==> IsField(s[j])
    ensures Payload(s, i) == Payload(s, e)
    decreases e - i
  {
    if i < e {
      SkipField(s, i + 1, e);
    }
  }

  /** Splitting the joined fields at their commas gives them back. */
  lemma {:induction false} SplitOfJoined(t: string, i: nat, fields: seq<string>, k: nat)
    requires k < |fields| && AllText(fields)
    requires i <= |t| && t[i..] == Joined(fields, k)
    ensures Split(t, i) == fields[k..]
    decreases |fields| - k
  {
    hide Split, Joined, IsFieldText;
    var field := fields[k];
    assert IsFieldText(field);
    if k + 1 == |fields| {
      LastJoined(fields, k);
      LastPart(t, i, field);
    } else {
      var more := Joined(fields, k + 1);
      NextJoined(fields, k);
      OnePart(t, i, field, more);
      SplitOfJoined(t, i + |field| + 1, fields, k + 1);
    }
  }

  lemma LastJoined(fields: seq<string>, k: nat)
    requires k + 1 == |fields|
    ensures Joined(fields, k) == fields[k] && fields[k..] == [fields[k]]
  {
  }

  lemma NextJoined(fields: seq<string>, k: nat)
    requires k + 1 < |fields|
    ensures Joined(fields, k) == fields[k] + ("," + Joined(fields, k + 1)) && fields[k..] == [fields[k]] + fields[k + 1..]
  {
  }

  lemma LastPart(t: string, i: nat, field: string)
    requires i <= |t| && t[i..] == field && IsFieldText(field)
    ensures Split(t, i) == [field]
  {
    assert forall j :: i <= j < |t| ==> t[j] == field[j - i];
    CommaIs(t, i, |t|);
  }

  lemma OnePart(t: string, i: nat, field: string, more: string)
    requires i <= |t| && t[i..] == field + ("," + more) && IsFieldText(field)
    ensures |t| == i + |field| + 1 + |more| && t[i + |field| + 1..] == more
    ensures Split(t, i) == [field] + Split(t, i + |field| + 1)
  {
    var e := i + |field|;
    PartsOf(t, i, field, more);
    assert forall j :: i <= j < e ==> t[j] == field[j - i];
    CommaIs(t, i, e);
  }

  lemma PartsOf(t: string, i: nat, field: string, more: string)
    requires i <= |t| && t[i..] == field + ("," + more)
    ensures var e := i + |field|;
            && |t| == e + 1 + |more| && t[i..e] == field && t[e] == ',' && t[e + 1..] == more
            && forall j :: i <= j < e ==> t[j] == field[j - i]
  {
    var e := i + |field|;
    assert t[e] == t[i..][|field|];
    assert t[i..e] == t[i..][..|field|];
    assert t[e + 1..] == t[i..][|field| + 1..];
    assert forall j :: i <= j < e ==> t[j] == t[i..e][j - i];
  }

  lemma {:induction false} CommaIs(t: string, i: nat, e: nat)
    requires i <= e <= |t| && (e < |t| ==> t[e] == ',') && forall j :: i <= j < e ==> t[j] != ','
    ensures NextComma(t, i) == e
    decreases e - i
  {
    if i < e {
      CommaIs(t, i + 1, e);
    }
  }

  /** The scanner's k-th field of a written sentence is the k-th field that was written, and there are no others. */
  lemma WrittenFieldsAreSeen(fields: seq<string>, tail: string, k: nat)
    requires fields != [] && AllText(fields) && EndsFields(tail)
    ensures var s := Joined(fields, 0) + tail;
            var v := ViewOf(s, FieldAt(s, k));
            if k < |fields| then v.Present? && v.run == fields[k] else v.Absent?
  {
    var text := Joined(fields, 0);
    var s := text + tail;
    PayloadOfJoined(s, 0, fields, 0, tail);
    assert s[..|text|] == text;
    SplitOfJoined(text, 0, fields, 0);
    FieldsAreCommaSeparated(s, k);
  }

  // ---------- dates and times ----------

  function DigitChar(d: int): (c: char)
    requires 0 <= d <= 9
    ensures IsDigit(c) && Digit(c) == d
  {
    '0' + d as char
  }

  function TwoDigitText(n: int): (t: string)
    requires 0 <= n < 100
    ensures |t| == 2
  {
    [DigitChar(n / 10), DigitChar(n % 10)]
  }

  lemma TwoAreRead(run: string, i: nat, n: int)
    requires 0 <= n < 100 && i + 2 <= |run| && run[i] == TwoDigitText(n)[0] && run[i + 1] == TwoDigitText(n)[1]
    ensures IsDigit(run[i]) && IsDigit(run[i + 1]) && TwoDigits(run, i) == n
  {
  }

  lemma SixAreRead(run: string, a: int, b: int, c: int, rest: string)
    requires 0 <= a < 100 && 0 <= b < 100 && 0 <= c < 100
    requires run == TwoDigitText(a) + TwoDigitText(b) + TwoDigitText(c) + rest
    ensures SixDigits(run) && TwoDigits(run, 0) == a && TwoDigits(run, 2) == b && TwoDigits(run, 4) == c
    ensures run[6..] == rest
  {
    hide TwoDigitText, TwoDigits;
    TwoAreRead(run, 0, a);
    TwoAreRead(run, 2, b);
    TwoAreRead(run, 4, c);
  }

  function SixText(a: int, b: int, c: int): string
    requires 0 <= a < 100 && 0 <= b < 100 && 0 <= c < 100
  {
    TwoDigitText(a) + TwoDigitText(b) + TwoDigitText(c)
  }

  /** A date written as six digits is read as its day, month and year, whatever stands behind it. */
  lemma DateIsRead(day: int, month: int, year: int, tail: string)
    requires 0 <= day < 100 && 0 <= month < 100 && 0 <= year < 100
    ensures DateOf(SixText(day, month, year) + tail) == Done([DateValue(day, month, year)])
  {
    SixAreRead(SixText(day, month, year) + tail, day, month, year, tail);
  }

  /** Conversely an accepted date is empty, or six digits and a tail that is ignored. */
  lemma AcceptedDateIs(run: string) returns (day: int, month: int, year: int, tail: string)
    requires DateOf(run).Done? && run != ""
    ensures 0 <= day < 100 && 0 <= month < 100 && 0 <= year < 100 && run == SixText(day, month, year) + tail
  {
    day, month, year, tail := TakeSix(run);
  }

  lemma TakeSix(run: string) returns (a: int, b: int, c: int, tail: string)
    requires SixDigits(run)
    ensures 0 <= a < 100 && 0 <= b < 100 && 0 <= c < 100 && run == SixText(a, b, c) + tail
  {
    a, b, c, tail := TwoDigits(run, 0), TwoDigits(run, 2), TwoDigits(run, 4), run[6..];
    TwoDigitsBack(run, 0);
    TwoDigitsBack(run, 2);
    TwoDigitsBack(run, 4);
    hide TwoDigits, TwoDigitText;
    assert run == run[0..2] + run[2..4] + run[4..6] + run[6..];
  }

  lemma TwoDigitsBack(run: string, i: nat)
    requires i + 2 <= |run| && IsDigit(run[i]) && IsDigit(run[i + 1])
    ensures 0 <= TwoDigits(run, i) < 100 && TwoDigitText(TwoDigits(run, i)) == run[i..i + 2]
  {
  }

  /** "123456x" is accepted as a date, and the x is lost. */
  lemma DateTailIsIgnored(run: string)
    requires run == "123456x"
    ensures DateOf(run) == Done([DateValue(12, 34, 56)])
  {
    assert SixDigits(run);
  }

  function TimeText(hours: int, minutes: int, seconds: int, frac: string, tail: string): string
    requires 0 <= hours < 100 && 0 <= minutes < 100 && 0 <= seconds < 100
  {
    SixText(hours, minutes, seconds) + ("." + (frac + tail))
  }

  /** A time with a fraction of any length is read to the microsecond, without rounding, whatever stands behind its digits. */
  lemma TimeIsRead(hours: int, minutes: int, seconds: int, frac: string, tail: string)
    requires 0 <= hours < 100 && 0 <= minutes < 100 && 0 <= seconds < 100
    requires AllDigits(frac) && (tail != "" ==> !IsDigit(tail[0]))
    ensures var n := if |frac| < 6 then |frac| else 6;
            TimeOf(TimeText(hours, minutes, seconds, frac, tail)) ==
            Done([TimeValue(hours, minutes, seconds, Extend(0, frac, 0, n) * Pow10(6 - n))])
  {
    hide TimeText, SixText, TwoDigitText, TwoDigits, DigitsEnd, Micros, Extend, Pow10;
    var run := TimeText(hours, minutes, seconds, frac, tail);
    TimeStands(run, hours, minutes, seconds, frac, tail);
    FractionIsRead(run, 7, frac);
  }

  lemma TimeStands(run: string, hours: int, minutes: int, seconds: int, frac: string, tail: string)
    requires 0 <= hours < 100 && 0 <= minutes < 100 && 0 <= seconds < 100 && (tail != "" ==> !IsDigit(tail[0]))
    requires run == TimeText(hours, minutes, seconds, frac, tail)
    ensures SixDigits(run) && TwoDigits(run, 0) == hours && TwoDigits(run, 2) == minutes && TwoDigits(run, 4) == seconds
    ensures 7 + |frac| <= |run| && run[6] == '.' && (forall j :: 7 <= j < 7 + |frac| ==> run[j] == frac[j - 7])
    ensures !IsDigit(At(run, 7 + |frac|))
  {
    SixAreRead(run, hours, minutes, seconds, "." + (frac + tail));
    hide TimeText, SixText, TwoDigitText, TwoDigits, SixDigits;
    FractionStands(run, frac, tail);
  }

  /** Without a point behind its digits it is read without a fraction, and what stands there is ignored. */
  lemma WholeTimeIsRead(hours: int, minutes: int, seconds: int, tail: string)
    requires 0 <= hours < 100 && 0 <= minutes < 100 && 0 <= seconds < 100 && (tail != "" ==> tail[0] != '.')
    ensures TimeOf(SixText(hours, minutes, seconds) + tail) == Done([TimeValue(hours, minutes, seconds, 0)])
  {
    SixAreRead(SixText(hours, minutes, seconds) + tail, hours, minutes, seconds, tail);
  }

  /** Conversely an accepted time is empty, or six digits, perhaps a point and digits, and a tail that is ignored. */
  lemma AcceptedTimeIs(run: string) returns (hours: int, minutes: int, seconds: int, point: bool, frac: string, tail: string)
    requires TimeOf(run).Done? && run != ""
    ensures 0 <= hours < 100 && 0 <= minutes < 100 && 0 <= seconds < 100 && AllDigits(frac)
    ensures run == if point then TimeText(hours, minutes, seconds, frac, tail) else SixText(hours, minutes, seconds) + tail
    ensures tail != "" ==> if point then !IsDigit(tail[0]) else tail[0] != '.'
  {
    hours, minutes, seconds, tail := TakeSix(run);
    point, frac := tail != "" && tail[0] == '.', "";
    if point {
      var behind := tail[1..];
      var e := DigitsEnd(behind, 0);
      assert tail == "." + behind && behind == behind[..e] + behind[e..];
      frac, tail := behind[..e], behind[e..];
    }
  }

  lemma FractionIsRead(run: string, i: nat, frac: string)
    requires i + |frac| <= |run| && AllDigits(frac) && (forall j :: i <= j < i + |frac| ==> run[j] == frac[j - i])
    requires !IsDigit(At(run, i + |frac|))
    ensures var n := if |frac| < 6 then |frac| else 6; Micros(run, i) == Extend(0, frac, 0, n) * Pow10(6 - n)
  {
    hide DigitsEnd, Extend, Pow10;
    var n := if |frac| < 6 then |frac| else 6;
    DigitsEndIs(run, i, i + |frac|);
    ExtendShifted(run, frac, i, n);
  }

  lemma FractionStands(run: string, frac: string, tail: string)
    requires 6 <= |run| && run[6..] == "." + (frac + tail) && (tail != "" ==> !IsDigit(tail[0]))
    ensures 7 + |frac| <= |run| && run[6] == '.' && (forall j :: 7 <= j < 7 + |frac| ==> run[j] == frac[j - 7])
    ensures !IsDigit(At(run, 7 + |frac|))
  {
    var rest := run[6..];
    assert forall j :: 6 <= j < |run| ==> run[j] == rest[j - 6];
  }
}
