/** Values written as a sentence and scanned with the matching format: the scanner hands out just those values. */
module NmeaSentence {
  import opened CStrings
  import opened NmeaFixed
  import opened NmeaScan
  import opened NmeaDecimal
  import opened NmeaInt
  import opened NmeaWriter
  import opened NmeaScanner

  /** A field that the format skips, or one with a value. */
  datatype Item = Skipped | Given(value: Value)

  function TypeOfItem(it: Item): char {
    if it.Skipped? then '_'
    else match it.value
      case CharValue(_) => 'c'
      case DirectionValue(_) => 'd'
      case FixedValue(_, _) => 'f'
      case IntValue(_) => 'i'
      case StringValue(_) => 's'
      case TypeValue(_) => 't'
      case DateValue(_, _, _) => 'D'
      case TimeValue(_, _, _, _) => 'T'
  }

  function OutOf(it: Item): seq<Value> {
    if it.Skipped? then [] else [it.value]
  }

  /** Printable characters other than commas and asterisks. */
  ghost predicate IsPlainText(text: string) {
    forall i :: 0 <= i < |text| ==> ' ' <= text[i] <= '~' && text[i] != ',' && text[i] != '*'
  }

  // ---------- how values are written ----------

  /** A decimal whose digits all fit, with at most nine behind the point. */
  ghost predicate IsFixedText(text: string, d: Decimal, value: int, scale: int) {
    && DecimalOk(d) && Exact(d) <= INT32_MAX && |d.frac| <= 9 && text == DecimalText(d)
    && value == Signed(d.sign, Exact(d)) && scale == Pow10(|d.frac|)
  }

  /** White space, a sign and digits of a number that fits 32 bits. */
  ghost predicate IsIntText(text: string, space: string, sign: int, digits: string, n: int) {
    && AllSpace(space) && -1 <= sign <= 1 && AllDigits(digits) && digits != "" && text == space + (SignText(sign) + digits)
    && n == Signed(sign, Extend(0, digits, 0, |digits|)) && -INT32_MAX - 1 <= n <= INT32_MAX
  }

  ghost predicate IsTimeText(text: string, frac: string, hours: int, minutes: int, seconds: int, microseconds: int) {
    && 0 <= hours < 100 && 0 <= minutes < 100 && 0 <= seconds < 100 && AllDigits(frac) && |frac| <= 6
    && text == TimeText(hours, minutes, seconds, frac, "")
    && microseconds == Extend(0, frac, 0, |frac|) * Pow10(6 - |frac|)
  }

  ghost predicate Writes(text: string, v: Value) {
    match v
    case CharValue(c) => if c == NUL then text == "" else text == [c]
    case DirectionValue(sign) =>
      (text == "N" && sign == 1) || (text == "E" && sign == 1) || (text == "S" && sign == -1) || (text == "W" && sign == -1)
      || (text == "" && sign == 0)
    case FixedValue(value, scale) => (text == "" && value == 0 && scale == 0) || exists d :: IsFixedText(text, d, value, scale)
    case IntValue(n) => exists space, sign, digits :: IsIntText(text, space, sign, digits, n)
    case StringValue(s) => text == s
    case TypeValue(id) => |id| == 5 && text == "$" + id
    case DateValue(day, month, year) =>
      if day == -1 && month == -1 && year == -1 then text == ""
      else 0 <= day < 100 && 0 <= month < 100 && 0 <= year < 100 && text == SixText(day, month, year)
    case TimeValue(hours, minutes, seconds, microseconds) =>
      if hours == -1 && minutes == -1 && seconds == -1 && microseconds == -1 then text == ""
      else exists frac :: IsTimeText(text, frac, hours, minutes, seconds, microseconds)
  }

  ghost predicate WritesItem(text: string, it: Item) {
    IsPlainText(text) && (it.Given? ==> Writes(text, it.value))
  }

  lemma FixedIsRead(text: string, d: Decimal, value: int, scale: int)
    requires IsFixedText(text, d, value, scale)
    ensures FixedField(text) == Done([FixedValue(value, scale)])
  {
    hide DecimalText, Extend, Kept;
    WholeFits(d);
    KeptIsLongest(Whole(d), d.frac, 0, |d.frac|);
    DecimalIsRead(d);
  }

  lemma WholeFits(d: Decimal)
    requires Shaped(d) && Exact(d) <= INT32_MAX
    ensures Whole(d) <= INT32_MAX
  {
    ExtendGrows(Whole(d), d.frac, 0, 0, |d.frac|);
  }

  lemma IntTextIsRead(text: string, space: string, sign: int, digits: string, n: int, rest: string)
    requires IsIntText(text, space, sign, digits, n) && (rest == "" || !IsField(rest[0]))
    ensures IntOf(text + rest) == Done([IntValue(n)])
  {
    IntIsRead(space, sign, digits, rest);
    assert NumberText(space, sign, digits, rest) == text + rest by {
      hide Extend, AllSpace, AllDigits;
    }
    hide NumberText, Extend, AllSpace, AllDigits, IntOf;
  }

  /** A field reads as the value that was written, whatever stands behind it. */
  lemma ValueIsRead(text: string, v: Value, rest: string)
    requires IsPlainText(text) && Writes(text, v) && (rest == "" || !IsField(rest[0]))
    ensures ParseField(TypeOfItem(Given(v)), Present(text, rest)) == Done([v])
  {
    hide FixedField, IntOf, DateOf, TimeOf, IsFixedText, IsIntText, IsTimeText;
    match v
    case FixedValue(value, scale) =>
      if text == "" && value == 0 && scale == 0 {
        BlankIsZero(0);
        EmptyFixed();
      } else {
        var d :| IsFixedText(text, d, value, scale);
        FixedIsRead(text, d, value, scale);
      }
    case IntValue(n) =>
      var space, sign, digits :| IsIntText(text, space, sign, digits, n);
      IntTextIsRead(text, space, sign, digits, n, rest);
    case DateValue(day, month, year) =>
      DateTextIsRead(text, day, month, year);
    case TimeValue(hours, minutes, seconds, microseconds) =>
      TimeTextIsRead(text, hours, minutes, seconds, microseconds);
    case TypeValue(id) =>
      assert text[1..6] == id;
    case CharValue(_) =>
    case DirectionValue(_) =>
    case StringValue(_) =>
  }

  lemma EmptyFixed()
    ensures FixedField("") == Done([FixedValue(0, 0)])
  {
  }

  lemma DateTextIsRead(text: string, day: int, month: int, year: int)
    requires Writes(text, DateValue(day, month, year))
    ensures DateOf(text) == Done([DateValue(day, month, year)])
  {
    if text != "" {
      DateIsRead(day, month, year, "");
      assert text + "" == text;
    }
  }

  lemma TimeTextIsRead(text: string, hours: int, minutes: int, seconds: int, microseconds: int)
    requires Writes(text, TimeValue(hours, minutes, seconds, microseconds))
    ensures TimeOf(text) == Done([TimeValue(hours, minutes, seconds, microseconds)])
  {
    if !(hours == -1 && minutes == -1 && seconds == -1 && microseconds == -1) {
      var frac :| IsTimeText(text, frac, hours, minutes, seconds, microseconds);
      TimeIsRead(hours, minutes, seconds, frac, "");
    }
  }

  // ---------- fields that are not there ----------

  /** What an optional field that is missing reads as; only the type may not be missing. */
  function Default(type_: char): Item
    requires type_ in "cdfisDT_"
  {
    if type_ == 'c' then Given(CharValue(NUL))
    else if type_ == 'd' then Given(DirectionValue(0))
    else if type_ == 'f' then Given(FixedValue(0, 0))
    else if type_ == 'i' then Given(IntValue(0))
    else if type_ == 's' then Given(StringValue(""))
    else if type_ == 'D' then Given(DateValue(-1, -1, -1))
    else if type_ == 'T' then Given(TimeValue(-1, -1, -1, -1))
    else Skipped
  }

  lemma MissingIsDefault(type_: char)
    requires type_ in "cdfisDT_"
    ensures ParseField(type_, Absent) == Done(OutOf(Default(type_)))
  {
    BlankIsZero(0);
    EmptyFixed();
    hide FixedField;
  }

  /** A direction field is accepted exactly if it is empty or starts with one of the four letters. */
  lemma DirectionIsAcceptedIff(run: string)
    ensures DirectionOf(run).Done? <==> run == "" || run[0] in "NESW"
  {
  }

  // ---------- formats ----------

  /** The format characters of the items, with ';' left out. */
  function Format(items: seq<Item>): (format: string)
    ensures |format| == |items|
  {
    seq(|items|, k requires 0 <= k < |items| => TypeOfItem(items[k]))
  }

  /** Up to a ';' each character is a directive of its own; behind it the fields are optional. */
  lemma {:induction false} DirectivesAre(format: string, i: nat, optional: bool)
    requires i <= |format| && ';' !in format[i..]
    ensures |Directives(format, i, optional)| == |format| - i
    ensures forall k :: 0 <= k < |format| - i ==> Directives(format, i, optional)[k] == Directive(format[i + k], optional)
    decreases |format| - i
  {
    if i < |format| {
      assert format[i] in format[i..];
      assert format[i + 1..] == format[i..][1..];
      DirectivesAre(format, i + 1, optional);
    }
  }

  lemma {:induction false} DirectivesToSemicolon(a: string, b: string, i: nat)
    requires i <= |a| && ';' !in a && ';' !in b
    ensures var ds := Directives(a + ";" + b, i, false);
            && |ds| == |a| - i + |b|
            && (forall k :: 0 <= k < |a| - i ==> ds[k] == Directive(a[i + k], false))
            && (forall k :: |a| - i <= k < |ds| ==> ds[k] == Directive(b[k - (|a| - i)], true))
    decreases |a| - i
  {
    var format := a + ";" + b;
    if i < |a| {
      assert format[i] == a[i] && a[i] in a;
      DirectivesToSemicolon(a, b, i + 1);
    } else {
      assert format[i] == ';' && format[i + 1..] == b;
      DirectivesAre(format, i + 1, true);
    }
  }

  // ---------- sentences ----------

  function OutOfAll(items: seq<Item>, n: nat): seq<Value>
    requires n <= |items|
  {
    if n == 0 then [] else OutOfAll(items, n - 1) + OutOf(items[n - 1])
  }

  ghost predicate AllWritten(texts: seq<string>, items: seq<Item>) {
    |texts| == |items| && forall k {:trigger texts[k]} :: 0 <= k < |texts| ==> WritesItem(texts[k], items[k])
  }

  lemma ItemIsRead(text: string, it: Item, rest: string)
    requires WritesItem(text, it) && (rest == "" || !IsField(rest[0]))
    ensures ParseField(TypeOfItem(it), Present(text, rest)) == Done(OutOf(it))
  {
    if it.Given? {
      hide ParseField;
      ValueIsRead(text, it.value, rest);
    }
  }

  lemma TextsAreFields(texts: seq<string>, items: seq<Item>)
    requires AllWritten(texts, items)
    ensures AllText(texts)
  {
    forall k: nat {:trigger texts[k]} | k < |texts|
      ensures IsFieldText(texts[k])
    {
      assert WritesItem(texts[k], items[k]);
    }
  }

  lemma RestStops(s: string, c: Cursor)
    requires c.Pos? ==> c.i <= |s|
    ensures var v := ViewOf(s, c); v.Present? ==> v.rest == "" || !IsField(v.rest[0])
  {
  }

  /** Field k of the sentence, under its own directive. */
  lemma FieldIsRead(s: string, texts: seq<string>, items: seq<Item>, tail: string, k: nat)
    requires texts != [] && AllWritten(texts, items) && EndsFields(tail) && s == Joined(texts, 0) + tail && k < |texts|
    ensures ViewOf(s, FieldAt(s, k)).Present? && ParseField(TypeOfItem(items[k]), ViewOf(s, FieldAt(s, k))) == Done(OutOf(items[k]))
  {
    TextsAreFields(texts, items);
    WrittenFieldsAreSeen(texts, tail, k);
    RestStops(s, FieldAt(s, k));
    assert WritesItem(texts[k], items[k]);
    hide ViewOf, FieldAt, ParseField, WritesItem;
    ItemIsRead(texts[k], items[k], ViewOf(s, FieldAt(s, k)).rest);
  }

  /** A field behind the last one that was written. */
  lemma FieldIsMissing(s: string, texts: seq<string>, items: seq<Item>, tail: string, k: nat, type_: char)
    requires texts != [] && AllWritten(texts, items) && EndsFields(tail) && s == Joined(texts, 0) + tail && |texts| <= k
    ensures ViewOf(s, FieldAt(s, k)).Absent?
    ensures type_ in "cdfisDT_" ==> ParseField(type_, ViewOf(s, FieldAt(s, k))) == Done(OutOf(Default(type_)))
  {
    TextsAreFields(texts, items);
    WrittenFieldsAreSeen(texts, tail, k);
    hide ViewOf, FieldAt, ParseField;
    if type_ in "cdfisDT_" {
      MissingIsDefault(type_);
    }
  }

  /** The directives ask for the items, field by field. */
  ghost predicate AsksFor(s: string, ds: seq<Directive>, items: seq<Item>) {
    |ds| == |items| && forall k {:trigger ds[k]} :: 0 <= k < |ds| ==>
      && (ViewOf(s, FieldAt(s, k)).Present? || ds[k].optional)
      && ParseField(ds[k].type_, ViewOf(s, FieldAt(s, k))) == Done(OutOf(items[k]))
  }

  lemma {:induction false} OutputsAre(s: string, ds: seq<Directive>, items: seq<Item>, n: nat)
    requires n <= |ds| && AsksFor(s, ds, items)
    ensures forall k :: 0 <= k < n ==> FieldOk(s, ds, k)
    ensures Outputs(s, ds, n) == OutOfAll(items, n)
  {
    hide ParseField, ViewOf, FieldAt;
    if n > 0 {
      OutputsAre(s, ds, items, n - 1);
      var d := ds[n - 1];
      assert FieldOk(s, ds, n - 1);
    }
  }

  predicate MayBeMissing(more: string) {
    forall k :: 0 <= k < |more| ==> more[k] in "cdfisDT_"
  }

  function Defaults(more: string): (items: seq<Item>)
    requires MayBeMissing(more)
    ensures |items| == |more|
  {
    seq(|more|, k requires 0 <= k < |more| => Default(more[k]))
  }

  /** The first p items are mandatory; the others may be missing, and those of more are. */
  function FormatOf(items: seq<Item>, p: nat, more: string): string
    requires p <= |items|
  {
    Format(items[..p]) + ";" + (Format(items[p..]) + more)
  }

  lemma {:induction false} NoSemicolon(items: seq<Item>, more: string)
    requires MayBeMissing(more)
    ensures ';' !in Format(items) && ';' !in more && ';' !in Format(items) + more
  {
    forall k | 0 <= k < |more|
      ensures more[k] != ';'
    {
    }
  }

  lemma {:induction false} DirectivesOfFormat(items: seq<Item>, p: nat, more: string)
    requires p <= |items| && MayBeMissing(more)
    ensures var ds := Directives(FormatOf(items, p, more), 0, false);
            && |ds| == |items| + |more|
            && (forall k :: 0 <= k < |items| ==> ds[k] == Directive(TypeOfItem(items[k]), p <= k))
            && (forall k :: |items| <= k < |ds| ==> ds[k] == Directive(more[k - |items|], true))
  {
    var a, b := Format(items[..p]), Format(items[p..]) + more;
    NoSemicolon(items[..p], more);
    NoSemicolon(items[p..], more);
    FormatParts(items, p, more, a, b);
    hide TypeOfItem, Format, FormatOf;
    DirectivesToSemicolon(a, b, 0);
    var ds := Directives(a + ";" + b, 0, false);
    forall k | 0 <= k < |items|
      ensures ds[k] == Directive(TypeOfItem(items[k]), p <= k)
    {
      assert if k < p then a[k] == TypeOfItem(items[k]) else b[k - p] == TypeOfItem(items[k]);
    }
    forall k | |items| <= k < |ds|
      ensures ds[k] == Directive(more[k - |items|], true)
    {
      assert b[k - p] == more[k - |items|];
    }
  }

  lemma {:induction false} FormatParts(items: seq<Item>, p: nat, more: string, a: string, b: string)
    requires p <= |items| && a == Format(items[..p]) && b == Format(items[p..]) + more
    ensures |a| == p && |b| == |items| - p + |more| && FormatOf(items, p, more) == a + ";" + b
    ensures forall k :: 0 <= k < p ==> a[k] == TypeOfItem(items[k])
    ensures forall k :: p <= k < |items| ==> b[k - p] == TypeOfItem(items[k])
    ensures forall k :: |items| - p <= k < |b| ==> b[k] == more[k - (|items| - p)]
  {
    hide TypeOfItem;
  }

  lemma SentenceIsRead(s: string, texts: seq<string>, items: seq<Item>, tail: string, p: nat, more: string)
    requires texts != [] && AllWritten(texts, items) && EndsFields(tail) && s == Joined(texts, 0) + tail
    requires p <= |items| && MayBeMissing(more)
    ensures AsksFor(s, Directives(FormatOf(items, p, more), 0, false), items + Defaults(more))
  {
    var ds, all := Directives(FormatOf(items, p, more), 0, false), items + Defaults(more);
    DirectivesOfFormat(items, p, more);
    hide ParseField, ViewOf, FieldAt, Directives, FormatOf, AllWritten, Default, OutOf, TypeOfItem, Joined, EndsFields;
    forall k {:trigger ds[k]} | 0 <= k < |ds|
      ensures ViewOf(s, FieldAt(s, k)).Present? || ds[k].optional
      ensures ParseField(ds[k].type_, ViewOf(s, FieldAt(s, k))) == Done(OutOf(all[k]))
    {
      if k < |items| {
        FieldIsRead(s, texts, items, tail, k);
      } else {
        FieldIsMissing(s, texts, items, tail, k, more[k - |items|]);
      }
    }
  }

  /** Written values are scanned: each comes out as it was written, and the optional ones that are missing with their defaults. */
  method ScanWritten(texts: seq<string>, items: seq<Item>, tail: string, p: nat, more: string)
      returns (result: bool, out: seq<Value>)
    requires texts != [] && AllWritten(texts, items) && EndsFields(tail) && p <= |items| && MayBeMissing(more)
    ensures result && out == OutOfAll(items + Defaults(more), |items| + |more|)
  {
    hide Directives, FieldOk, Outputs, Joined, FormatOf, AsksFor, AllWritten, EndsFields, MayBeMissing;
    var s, format := Joined(texts, 0) + tail, FormatOf(items, p, more);
    result, out := Scan(s, format);
    ghost var ds := Directives(format, 0, false);
    SentenceIsRead(s, texts, items, tail, p, more);
    DirectivesOfFormat(items, p, more);
    OutputsAre(s, ds, items + Defaults(more), |ds|);
    StopOfIs(s, ds, |ds|);
  }

  /** A mandatory field that is missing stops the scan, behind the values before it. */
  method ScanTooFew(texts: seq<string>, items: seq<Item>, tail: string, more: string) returns (result: bool, out: seq<Value>)
    requires texts != [] && AllWritten(texts, items) && EndsFields(tail) && more != "" && ';' !in more
    ensures !result && out == OutOfAll(items, |items|)
  {
    hide FieldOk, Outputs, Joined, AllWritten, EndsFields;
    var s, format := Joined(texts, 0) + tail, Format(items) + more;
    result, out := Scan(s, format);
    ghost var ds := Directives(format, 0, false);
    TooFew(s, texts, items, tail, more, ds);
  }

  lemma {:induction false} TooFew(s: string, texts: seq<string>, items: seq<Item>, tail: string, more: string, ds: seq<Directive>)
    requires texts != [] && AllWritten(texts, items) && EndsFields(tail) && more != "" && ';' !in more
    requires s == Joined(texts, 0) + tail && ds == Directives(Format(items) + more, 0, false)
    ensures |items| < |ds| && !FieldOk(s, ds, |items|)
    ensures StopOf(s, ds, 0) == |items| && Outputs(s, ds, |items|) == OutOfAll(items, |items|)
  {
    var format, n := Format(items) + more, |items|;
    NoSemicolon(items, "");
    assert format[0..] == format;
    DirectivesAre(format, 0, false);
    hide ParseField, ViewOf, FieldAt, Directives, AllWritten, OutOf, TypeOfItem, Joined, EndsFields, Outputs;
    var first := ds[..n];
    assert AsksFor(s, first, items) by {
      forall k {:trigger first[k]} | 0 <= k < n
        ensures ViewOf(s, FieldAt(s, k)).Present?
        ensures ParseField(first[k].type_, ViewOf(s, FieldAt(s, k))) == Done(OutOf(items[k]))
      {
        assert format[k] == TypeOfItem(items[k]);
        FieldIsRead(s, texts, items, tail, k);
      }
    }
    OutputsAre(s, first, items, n);
    FieldIsMissing(s, texts, items, tail, n, 'x');
    SameOutputs(s, first, ds, n);
    assert !FieldOk(s, ds, n);
    StopOfIs(s, ds, n);
  }

  lemma {:induction false} SameOutputs(s: string, ds: seq<Directive>, ds': seq<Directive>, n: nat)
    requires n <= |ds| && ds <= ds' && forall k :: 0 <= k < n ==> FieldOk(s, ds, k)
    ensures forall k :: 0 <= k < n ==> FieldOk(s, ds', k)
    ensures Outputs(s, ds', n) == Outputs(s, ds, n)
  {
    hide ParseField, ViewOf, FieldAt;
    if n > 0 {
      SameOutputs(s, ds, ds', n - 1);
      assert FieldOk(s, ds, n - 1);
      assert FieldOk(s, ds', n - 1);
    }
  }
}
