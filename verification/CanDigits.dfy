/** CAN texts digit by digit: which characters are digits and what they are worth, whatever their case, and what is printed where. */
module CanDigits {
  import opened CStrings
  import opened Machine
  import opened CanText
  import opened CanFrames

  // ---------- digits ----------

  /** The v-th digit of either row is worth v, and no other character is a digit. */
  lemma DigitsAre(c: char)
    ensures forall v: nat :: v < 16 ==> Asc2Nibble(UPPER[v]) == v && Asc2Nibble(LOWER[v]) == v
    ensures c !in UPPER && c !in LOWER ==> Asc2Nibble(c) == 16
    ensures Asc2Nibble(c) < 16 ==> c == UPPER[Asc2Nibble(c)] || c == LOWER[Asc2Nibble(c)]
  {
    forall v: nat | v < 16
      ensures Asc2Nibble(UPPER[v]) == v && Asc2Nibble(LOWER[v]) == v
    {
      DigitAt(v);
    }
    var n := Asc2Nibble(c);
    if n < 16 {
      DigitAt(n);
      hide *;
      assert c == UPPER[n] || c == LOWER[n];
    }
  }

  lemma PrintedDigit(v: nat)
    requires v < 16
    ensures HexChar(v) == UPPER[v]
  {
    DigitAt(v);
  }

  // ---------- case ----------

  function Upper(c: char): char {
    if 'a' <= c <= 'z' then 'A' + (c - 'a') else c
  }

  ghost predicate SameUpToCase(a: string, b: string) {
    |a| == |b| && forall i :: 0 <= i < |a| ==> Upper(a[i]) == Upper(b[i])
  }

  lemma SameChar(c: char, d: char)
    requires Upper(c) == Upper(d)
    ensures Asc2Nibble(c) == Asc2Nibble(d)
    ensures (c == NUL <==> d == NUL) && (c == '#' <==> d == '#') && (c == '.' <==> d == '.')
    ensures c == 'R' || c == 'r' <==> d == 'R' || d == 'r'
  {
  }

  lemma {:induction false} SameEnd(a: string, b: string)
    requires SameUpToCase(a, b)
    ensures |CStr(a)| == |CStr(b)|
  {
    if a != "" {
      SameChar(a[0], b[0]);
      if a[0] != NUL {
        assert SameUpToCase(a[1..], b[1..]) by {
          forall i | 0 <= i < |a| - 1
            ensures Upper(a[1..][i]) == Upper(b[1..][i])
          {
            assert Upper(a[i + 1]) == Upper(b[i + 1]);
          }
        }
        SameEnd(a[1..], b[1..]);
      }
    }
  }

  lemma SameChars(a: string, b: string)
    requires SameUpToCase(a, b)
    ensures forall i :: 0 <= i < |a| ==> Asc2Nibble(a[i]) == Asc2Nibble(b[i])
    ensures forall i :: 0 <= i < |a| ==>
              && (a[i] == NUL <==> b[i] == NUL) && (a[i] == '#' <==> b[i] == '#') && (a[i] == '.' <==> b[i] == '.')
              && (a[i] == 'R' || a[i] == 'r' <==> b[i] == 'R' || b[i] == 'r')
  {
    hide Asc2Nibble, Upper;
    forall i | 0 <= i < |a|
      ensures Asc2Nibble(a[i]) == Asc2Nibble(b[i])
      ensures (a[i] == NUL <==> b[i] == NUL) && (a[i] == '#' <==> b[i] == '#') && (a[i] == '.' <==> b[i] == '.')
      ensures a[i] == 'R' || a[i] == 'r' <==> b[i] == 'R' || b[i] == 'r'
    {
      SameChar(a[i], b[i]);
    }
  }

  lemma {:induction false} SameValue(a: string, b: string, n: nat)
    requires SameUpToCase(a, b) && n <= |a| && AllHex(a, n)
    ensures AllHex(b, n) && HexValue(a, n) == HexValue(b, n)
  {
    SameChars(a, b);
    hide Asc2Nibble;
    if n > 0 {
      SameValue(a, b, n - 1);
    }
  }

  lemma SameAt(a: string, b: string, i: nat)
    requires SameUpToCase(a, b) && i < |a|
    ensures Asc2Nibble(a[i]) == Asc2Nibble(b[i]) && (a[i] == NUL <==> b[i] == NUL) && (a[i] == '.' <==> b[i] == '.')
  {
    SameChar(a[i], b[i]);
  }

  lemma {:induction false} SameBytes(a: string, b: string, len: nat, idx: nat, n: nat)
    requires SameUpToCase(a, b) && idx <= len < |a| == |b| && a[len] == NUL
    ensures b[len] == NUL && ParseBytes(a, len, idx, n) == ParseBytes(b, len, idx, n)
    decreases n
  {
    hide Asc2Nibble, Upper, SameUpToCase, ParseBytes;
    SameAt(a, b, len);
    SameAt(a, b, idx);
    OneRound(a, len, idx, n);
    OneRound(b, len, idx, n);
    var at := if a[idx] == '.' then idx + 1 else idx;
    if n > 0 && at < len {
      SameAt(a, b, at);
      SameAt(a, b, at + 1);
      if at + 1 < len {
        SameBytes(a, b, len, at + 2, n - 1);
      }
    }
  }

  lemma OneRound(cs: string, len: nat, idx: nat, n: nat)
    requires idx <= len < |cs| && cs[len] == NUL
    ensures n == 0 ==> ParseBytes(cs, len, idx, n) == Data([])
    ensures var at := if cs[idx] == '.' then idx + 1 else idx;
            n > 0 ==>
              ParseBytes(cs, len, idx, n) ==
              if at >= len then Data([])
              else if Asc2Nibble(cs[at]) > 15 || Asc2Nibble(cs[at + 1]) > 15 || at + 1 >= len then BadDigit
              else CanFrames.Prepend([16 * Asc2Nibble(cs[at]) + Asc2Nibble(cs[at + 1])], ParseBytes(cs, len, at + 2, n - 1))
  {
    assert Asc2Nibble(NUL) == 16;
    hide Asc2Nibble;
  }

  /** Texts that differ in the case of letters only are parsed alike, the letter of a remote request included. */
  lemma CaseDoesNotMatter(a: string, b: string)
    requires SameUpToCase(a, b) && Readable(a)
    ensures Readable(b) && Parse(a) == Parse(b)
  {
    SameEnd(a, b);
    SameChars(a, b);
    hide Asc2Nibble, CStr, HexValue, ParseBytes, Upper, SameUpToCase, IdOf;
    var n, len := IdDigits(a), |CStr(a)|;
    if n != 0 && AllHex(a, n) {
      SameValue(a, b, n);
      DigitsAreInText(a, n);
      SameBytes(a, b, len, n + 1, 8);
    }
  }

  /** And so are hex strings. */
  method HexStringsAgree(a: string, b: string, cf: CanFrame, cf': CanFrame) returns (err: bool)
    requires NulFree(a) && NulFree(b) && SameUpToCase(a, b) && cf.Valid() && cf'.Valid() && cf.data != cf'.data
    requires cf.data[..] == cf'.data[..]
    modifies cf.data, cf'.data
    ensures err <==> |a| == 0 || |a| % 2 != 0 || |a| > 16 || exists i :: 0 <= i < |a| && a[i] !in UPPER && a[i] !in LOWER
    ensures !err ==> cf.data[..] == cf'.data[..]
  {
    SameChars(a, b);
    BadDigits(a);
    hide Asc2Nibble, Upper, UPPER, LOWER, NulFree, SameUpToCase;
    err := HexString2CanData(a, cf);
    var err' := HexString2CanData(b, cf');
  }

  lemma BadDigits(a: string)
    ensures forall i :: 0 <= i < |a| ==> (Asc2Nibble(a[i]) > 15 <==> a[i] !in UPPER && a[i] !in LOWER)
  {
    hide Asc2Nibble, UPPER, LOWER;
    forall i | 0 <= i < |a|
      ensures Asc2Nibble(a[i]) > 15 <==> a[i] !in UPPER && a[i] !in LOWER
    {
      NoDigitIff(a[i]);
    }
  }

  lemma NoDigitIff(c: char)
    ensures Asc2Nibble(c) > 15 <==> c !in UPPER && c !in LOWER
  {
    DigitsAre(c);
    hide Asc2Nibble;
  }

  // ---------- ids ----------

  /** Eight digits write the whole id; without the error bit the bit of extended frames is set. Three digits write it as it is. */
  lemma IdIs(v: int)
    requires 0 <= v < 0x1_0000_0000
    ensures IdOf(v, 3) == v
    ensures IdOf(v, 8) == if v / 0x2000_0000 % 2 == 1 || v >= 0x8000_0000 then v else v + 0x8000_0000
  {
  }

  /** A remote request: the bit for it is set, and there are no data. */
  lemma RemoteFrameIs(cs: string)
    requires Readable(cs) && IdDigits(cs) != 0 && AllHex(cs, IdDigits(cs))
    requires cs[IdDigits(cs) + 1] == 'R' || cs[IdDigits(cs) + 1] == 'r'
    ensures HexValue(cs, IdDigits(cs)) < 0x1_0000_0000
    ensures var id := IdOf(HexValue(cs, IdDigits(cs)), IdDigits(cs));
            Parse(cs) == Accepted(Frame(if id / 0x4000_0000 % 2 == 1 then id else id + 0x4000_0000, 0, [0, 0, 0, 0, 0, 0, 0, 0]))
  {
    DigitsBound(cs, IdDigits(cs));
    DigitsAreInText(cs, IdDigits(cs));
    assert Padded([]) == [0, 0, 0, 0, 0, 0, 0, 0];
    hide HexValue, CStr;
  }
}
