/** Which texts are accepted as frames, and what they read as. */
module CanGrammar {
  import opened CStrings
  import opened Machine
  import opened CanText

  /** One data byte as a writer may spell it: digits in either case, with or without a dot before them. */
  datatype Spelling = Spelling(dot: bool, hi: char, lo: char)

  ghost predicate SpellingOk(s: Spelling) {
    Asc2Nibble(s.hi) < 16 && Asc2Nibble(s.lo) < 16
  }

  function Lead(s: Spelling): string {
    if s.dot then "." else ""
  }

  function SpelledFrom(ss: seq<Spelling>, i: nat): string
    requires i <= |ss|
    decreases |ss| - i
  {
    if i == |ss| then "" else Lead(ss[i]) + ([ss[i].hi, ss[i].lo] + SpelledFrom(ss, i + 1))
  }

  ghost function Value(s: Spelling): Byte
    requires SpellingOk(s)
  {
    16 * Asc2Nibble(s.hi) + Asc2Nibble(s.lo)
  }

  ghost predicate AllSpelled(ss: seq<Spelling>) {
    forall j: nat :: j < |ss| ==> SpellingOk(ss[j])
  }

  ghost function Values(ss: seq<Spelling>, i: nat): seq<Byte>
    requires i <= |ss| && AllSpelled(ss)
    decreases |ss| - i
  {
    if i == |ss| then [] else [Value(ss[i])] + Values(ss, i + 1)
  }

  lemma OneSpelledByte(cs: string, len: nat, idx: nat, s: Spelling, tail: string, end: nat, k: nat)
    requires idx <= end <= len < |cs| && cs[len] == NUL && 0 < k && SpellingOk(s)
    requires cs[idx..end] == Lead(s) + ([s.hi, s.lo] + tail)
    ensures var at := idx + |Lead(s)|;
            && at + 2 <= end && cs[at + 2..end] == tail
            && ParseBytes(cs, len, idx, k) ==
               var rest := ParseBytes(cs, len, at + 2, k - 1); if rest.BadDigit? then BadDigit else Data([Value(s)] + rest.bytes)
  {
    hide ParseBytes;
    var at := idx + |Lead(s)|;
    WindowSplit(cs, idx, end, Lead(s), [s.hi, s.lo] + tail);
    WindowSplit(cs, at, end, [s.hi, s.lo], tail);
    assert cs[at + 0] == [s.hi, s.lo][0] && cs[at + 1] == [s.hi, s.lo][1];
    assert s.dot ==> cs[idx + 0] == '.';
    ReadOneByte(cs, len, idx, at, k);
  }

  lemma ReadOneByte(cs: string, len: nat, idx: nat, at: nat, k: nat)
    requires idx <= at && at + 1 < len < |cs| && cs[len] == NUL && 0 < k
    requires Asc2Nibble(cs[at]) < 16 && Asc2Nibble(cs[at + 1]) < 16 && (at == idx || (at == idx + 1 && cs[idx] == '.'))
    ensures ParseBytes(cs, len, idx, k) ==
            var rest := ParseBytes(cs, len, at + 2, k - 1);
            if rest.BadDigit? then BadDigit else Data([16 * Asc2Nibble(cs[at]) + Asc2Nibble(cs[at + 1])] + rest.bytes)
  {
    assert Asc2Nibble('.') == 16;
  }

  /**
   * However up to eight bytes are spelled, the loop reads their values; after eight it ignores what follows, before that it
   * stops at the end of the text, with or without a last dot.
   */
  lemma {:induction false} AnySpellingIsRead(cs: string, len: nat, idx: nat, ss: seq<Spelling>, i: nat, k: nat, end: nat)
    requires idx <= end <= len < |cs| && cs[len] == NUL && i <= |ss| && |ss| - i <= k
    requires AllSpelled(ss)
    requires cs[idx..end] == SpelledFrom(ss, i)
    requires |ss| - i == k || end == len || (end + 1 == len && cs[end] == '.')
    ensures ParseBytes(cs, len, idx, k) == Data(Values(ss, i))
    decreases |ss| - i
  {
    hide ParseBytes, Lead, SpellingOk, AllSpelled, Value, Values, SpelledFrom;
    if i == |ss| {
      NoSpelling(ss);
      NothingMoreIsRead(cs, len, idx, k, end);
    } else {
      var at := idx + |Lead(ss[i])| + 2;
      NextSpelling(ss, i);
      OneSpelledByte(cs, len, idx, ss[i], SpelledFrom(ss, i + 1), end, k);
      AnySpellingIsRead(cs, len, at, ss, i + 1, k - 1, end);
    }
  }

  lemma NoSpelling(ss: seq<Spelling>)
    requires AllSpelled(ss)
    ensures Values(ss, |ss|) == [] && SpelledFrom(ss, |ss|) == ""
  {
  }

  lemma NextSpelling(ss: seq<Spelling>, i: nat)
    requires i < |ss| && AllSpelled(ss)
    ensures SpellingOk(ss[i]) && Values(ss, i) == [Value(ss[i])] + Values(ss, i + 1)
    ensures SpelledFrom(ss, i) == Lead(ss[i]) + ([ss[i].hi, ss[i].lo] + SpelledFrom(ss, i + 1))
  {
  }

  lemma NothingMoreIsRead(cs: string, len: nat, idx: nat, k: nat, end: nat)
    requires idx == end <= len < |cs| && cs[len] == NUL
    requires k == 0 || end == len || (end + 1 == len && cs[end] == '.')
    ensures ParseBytes(cs, len, idx, k) == Data([])
  {
  }

  // ---------- and no other text ----------

  /** Up to k bytes are spelled from character idx to end; fewer than k only at the end of the text, a last dot aside. */
  ghost predicate SpellsBytes(cs: string, len: nat, idx: nat, k: nat, ss: seq<Spelling>, end: nat)
    requires idx <= len < |cs|
  {
    && idx <= end <= len && |ss| <= k && AllSpelled(ss) && cs[idx..end] == SpelledFrom(ss, 0)
    && (|ss| == k || end == len || (end + 1 == len && cs[end] == '.'))
  }

  lemma {:induction false} TailOf(s: Spelling, rest: seq<Spelling>, i: nat)
    requires i <= |rest|
    ensures SpelledFrom([s] + rest, i + 1) == SpelledFrom(rest, i)
    decreases |rest| - i
  {
    if i < |rest| {
      assert ([s] + rest)[i + 1] == rest[i];
      TailOf(s, rest, i + 1);
    }
  }

  lemma Prepend(cs: string, len: nat, idx: nat, at: nat, k: nat, s: Spelling, rest: seq<Spelling>, end: nat)
    requires idx <= at && at + 1 < len < |cs| && 0 < k && SpellsBytes(cs, len, at + 2, k - 1, rest, end)
    requires s == Spelling(at > idx, cs[at], cs[at + 1]) && SpellingOk(s) && (at == idx || (at == idx + 1 && cs[idx] == '.'))
    ensures SpellsBytes(cs, len, idx, k, [s] + rest, end)
  {
    TailOf(s, rest, 0);
    var ss := [s] + rest;
    assert AllSpelled(ss) by {
      hide SpellingOk;
    }
    assert SpelledFrom(ss, 0) == Lead(s) + ([s.hi, s.lo] + SpelledFrom(rest, 0));
    hide SpelledFrom;
    assert cs[idx..end] == cs[idx..at] + ([cs[at], cs[at + 1]] + cs[at + 2..end]);
    assert cs[idx..at] == Lead(s);
  }

  /** Data that is read is spelled. */
  lemma {:induction false} ReadIsSpelled(cs: string, len: nat, idx: nat, k: nat) returns (ss: seq<Spelling>, end: nat)
    requires idx <= len < |cs| && cs[len] == NUL && ParseBytes(cs, len, idx, k).Data?
    ensures SpellsBytes(cs, len, idx, k, ss, end)
    decreases k
  {
    var at := if cs[idx] == '.' then idx + 1 else idx;
    if k == 0 {
      ss, end := [], idx;
    } else if at >= len {
      ss, end := [], idx;
    } else {
      assert Asc2Nibble(cs[at]) < 16 && Asc2Nibble(cs[at + 1]) < 16;
      assert at + 1 < len by {
        assert Asc2Nibble(NUL) == 16;
      }
      var rest: seq<Spelling>;
      rest, end := ReadIsSpelled(cs, len, at + 2, k - 1);
      var s := Spelling(at > idx, cs[at], cs[at + 1]);
      ss := [s] + rest;
      hide ParseBytes, SpellsBytes;
      Prepend(cs, len, idx, at, k, s, rest, end);
    }
  }

  ghost predicate IsSpelled(cs: string, len: nat, idx: nat, k: nat)
    requires idx <= len < |cs|
  {
    exists ss, end :: SpellsBytes(cs, len, idx, k, ss, end)
  }

  lemma ReadIffSpelled(cs: string, len: nat, idx: nat, k: nat)
    requires idx <= len < |cs| && cs[len] == NUL
    ensures ParseBytes(cs, len, idx, k).Data? <==> IsSpelled(cs, len, idx, k)
  {
    hide ParseBytes, SpellsBytes;
    if ParseBytes(cs, len, idx, k).Data? {
      var _, _ := ReadIsSpelled(cs, len, idx, k);
    }
    if IsSpelled(cs, len, idx, k) {
      var ss, end :| SpellsBytes(cs, len, idx, k, ss, end);
      SpelledIsRead(cs, len, idx, k, ss, end);
    }
  }

  /** Digits of an id and '#', then a remote request's letter or spelled bytes. */
  ghost predicate IsFrameText(cs: string)
    requires Readable(cs)
  {
    var n, len := IdDigits(cs), |CStr(cs)|;
    && n != 0 && AllHex(cs, n) && n < len
    && (cs[n + 1] == 'R' || cs[n + 1] == 'r' || IsSpelled(cs, len, n + 1, 8))
  }

  /** The texts that are accepted are the ones of this grammar. */
  lemma AcceptedIff(cs: string)
    requires Readable(cs)
    ensures Parse(cs).Accepted? <==> IsFrameText(cs)
  {
    var n, len := IdDigits(cs), |CStr(cs)|;
    if n != 0 && AllHex(cs, n) {
      DigitsAreInText(cs, n);
      DigitsBound(cs, n);
      hide ParseBytes, IsSpelled, CStr;
      ReadIffSpelled(cs, len, n + 1, 8);
    }
  }

  lemma SpelledIsRead(cs: string, len: nat, idx: nat, k: nat, ss: seq<Spelling>, end: nat)
    requires idx <= len < |cs| && cs[len] == NUL && SpellsBytes(cs, len, idx, k, ss, end)
    ensures ParseBytes(cs, len, idx, k) == Data(Values(ss, 0))
  {
    AnySpellingIsRead(cs, len, idx, ss, 0, k, end);
  }

  /** Of an accepted text without that letter the frame's data are the values spelled, however they are taken apart. */
  lemma AcceptedFrameIs(cs: string, ss: seq<Spelling>, end: nat)
    requires Readable(cs) && IsFrameText(cs) && cs[IdDigits(cs) + 1] != 'R' && cs[IdDigits(cs) + 1] != 'r'
    requires SpellsBytes(cs, |CStr(cs)|, IdDigits(cs) + 1, 8, ss, end)
    ensures |Values(ss, 0)| == |ss| <= 8
    ensures HexValue(cs, IdDigits(cs)) < 0x1_0000_0000
    ensures Parse(cs) == Accepted(Frame(IdOf(HexValue(cs, IdDigits(cs)), IdDigits(cs)), |ss|, Padded(Values(ss, 0))))
  {
    var n, len := IdDigits(cs), |CStr(cs)|;
    DigitsBound(cs, n);
    DigitsAreInText(cs, n);
    ValuesLength(ss, 0);
    SpelledIsRead(cs, len, n + 1, 8, ss, end);
    hide ParseBytes, SpellsBytes, CStr, HexValue;
  }

  lemma {:induction false} ValuesLength(ss: seq<Spelling>, i: nat)
    requires i <= |ss| && AllSpelled(ss)
    ensures |Values(ss, i)| == |ss| - i
    decreases |ss| - i
  {
    if i < |ss| {
      ValuesLength(ss, i + 1);
    }
  }
}
