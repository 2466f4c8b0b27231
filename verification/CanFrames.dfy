/** Printing into and parsing out of C buffers, and the mutable frame they fill. */
module CanFrames {
  import opened CStrings
  import opened CanText
  import opened Machine

  class CanFrame {
    var canId: CanId
    var canDlc: Byte
    const data: array<Byte>

    constructor ()
      ensures Valid() && fresh(data)
    {
      canId, canDlc := 0, 0;
      data := new Byte[8](_ => 0);
    }

    ghost predicate Valid() {
      data.Length == 8
    }

    function View(): (f: Frame)
      reads this, data
      ensures f.data == data[..] && f.canId == canId && f.dlc == canDlc
    {
      Frame(canId, canDlc, data[..])
    }
  }

  /** sprintf(&buf[offset], "%s", s). */
  method Put(buf: array<char>, offset: nat, s: string)
    requires offset + |s| < buf.Length
    modifies buf
    ensures buf[..offset + |s|] == old(buf[..offset]) + s && buf[offset + |s|] == NUL
    ensures forall i :: offset + |s| < i < buf.Length ==> buf[i] == old(buf[i])
  {
    var i := 0;
    while i < |s|
      invariant 0 <= i <= |s|
      invariant forall j :: 0 <= j < i ==> buf[offset + j] == s[j]
      invariant forall j :: 0 <= j < offset || offset + i <= j < buf.Length ==> buf[j] == old(buf[j])
    {
      buf[offset + i] := s[i];
      i := i + 1;
    }
    buf[offset + i] := NUL;
  }

  /** The id and '#'. */
  method SprintId(buf: array<char>, id: CanId) returns (offset: nat)
    requires BUFFER_SIZE <= buf.Length
    modifies buf
    ensures offset == |PrintId(id)| + 1 && buf[..offset] == PrintId(id) + "#" && buf[offset] == NUL
    ensures forall i :: offset < i < buf.Length ==> buf[i] == old(buf[i])
  {
    hide Hex;
    if Has(id, ERR_FLAG) {
      Put(buf, 0, Hex(id % 0x4000_0000, 8) + "#");
      offset := 9;
    } else if Has(id, EFF_FLAG) {
      Put(buf, 0, Hex(id % 0x2000_0000, 8) + "#");
      offset := 9;
    } else {
      Put(buf, 0, Hex(id % 0x800, 3) + "#");
      offset := 4;
    }
  }

  /** Prints the compact form; the text and its NUL stay within 34 bytes, and nothing behind them changes. */
  method SprintCanframe(buf: array<char>, cf: CanFrame, sep: int)
    requires cf.Valid() && BUFFER_SIZE <= buf.Length
    modifies buf
    ensures var text := Print(cf.View(), sep != 0);
            && buf[..|text|] == text && buf[|text|] == NUL
            && forall i :: |text| < i < buf.Length ==> buf[i] == old(buf[i])
  {
    hide PrintId, PrintBytes;
    ghost var text := Print(cf.View(), sep != 0);
    var dlc := if cf.canDlc > 8 then 8 else cf.canDlc;
    var offset := SprintId(buf, cf.canId);
    if Has(cf.canId, RTR_FLAG) {
      assert text == PrintId(cf.canId) + "#" + "R";
      Put(buf, offset, "R");
    } else {
      ghost var data := PrintBytes(cf.data[..], 0, dlc, sep != 0, false);
      assert text == (PrintId(cf.canId) + "#") + data;
      assert text[..offset] == PrintId(cf.canId) + "#" && text[offset..] == data;
      SprintData(buf, offset, cf, dlc, sep != 0, text);
    }
  }

  /** One byte's text: its digits, and a dot if another byte follows. */
  lemma NextByteText(data: seq<Byte>, i: nat, n: nat, sep: bool)
    requires i < n <= |data|
    ensures PrintBytes(data, i, n, sep, false) ==
            Hex2(data[i]) + ((if sep && i + 1 < n then "." else "") + PrintBytes(data, i + 1, n, sep, false))
  {
    hide Hex2;
    assert PrintBytes(data, i + 1, n, sep, sep) == (if sep && i + 1 < n then "." else "") + PrintBytes(data, i + 1, n, sep, false);
  }

  /** Prints s at offset, where the whole text has it next. */
  method PutNext(buf: array<char>, offset: nat, s: string, ghost text: string, ghost rest: string) returns (offset': nat)
    requires offset <= |text| < BUFFER_SIZE <= buf.Length && buf[..offset] == text[..offset] && text[offset..] == s + rest
    modifies buf
    ensures offset' == offset + |s| <= |text| && buf[..offset'] == text[..offset'] && buf[offset'] == NUL && text[offset'..] == rest
    ensures forall i :: |text| < i < buf.Length ==> buf[i] == old(buf[i])
  {
    WindowSplit(text, offset, |text|, s, rest);
    Put(buf, offset, s);
    offset' := offset + |s|;
    assert text[..offset'] == text[..offset] + text[offset..offset'];
  }

  /** The loop over the data bytes, after the id and '#' have been printed. */
  method SprintData(buf: array<char>, start: nat, cf: CanFrame, dlc: nat, sep: bool, ghost text: string)
    requires cf.Valid() && BUFFER_SIZE <= buf.Length && dlc <= 8 && start <= |text| < BUFFER_SIZE
    requires buf[..start] == text[..start] && text[start..] == PrintBytes(cf.data[..], 0, dlc, sep, false) && buf[start] == NUL
    modifies buf
    ensures buf[..|text|] == text && buf[|text|] == NUL
    ensures forall i :: |text| < i < buf.Length ==> buf[i] == old(buf[i])
  {
    hide Hex2, PrintBytes;
    var i, offset: nat := 0, start;
    ghost var data := cf.data[..];
    while i < dlc
      invariant 0 <= i <= dlc && offset <= |text|
      invariant buf[..offset] == text[..offset] && text[offset..] == PrintBytes(data, i, dlc, sep, false) && buf[offset] == NUL
      invariant forall j :: |text| < j < buf.Length ==> buf[j] == old(buf[j])
    {
      NextByteText(data, i, dlc, sep);
      ghost var rest := PrintBytes(data, i + 1, dlc, sep, false);
      offset := PutNext(buf, offset, Hex2(cf.data[i]), text, (if sep && i + 1 < dlc then "." else "") + rest);
      if sep && i + 1 < dlc {
        offset := PutNext(buf, offset, ".", text, rest);
      }
      i := i + 1;
    }
    assert PrintBytes(data, dlc, dlc, sep, false) == "" by { NoBytesLeft(data, dlc, sep); }
    assert text[offset..] == "";
  }

  lemma NoBytesLeft(data: seq<Byte>, n: nat, sep: bool)
    requires n <= |data|
    ensures PrintBytes(data, n, n, sep, false) == ""
  {
  }

  // ---------- parsing ----------

  lemma ShiftIn(v: int, d: int, p: int)
    ensures (16 * v + d) * p == v * (16 * p) + d * p
  {
  }

  /** The digits read so far, shifted to where the id will have them, still fit 32 bits. */
  lemma ShiftedDigitsFit(cs: string, i: nat, n: nat)
    requires i < n <= 8 && n <= |cs| && AllHex(cs, i + 1)
    ensures HexValue(cs, i + 1) * Pow16(n - (i + 1)) == HexValue(cs, i) * Pow16(n - i) + Asc2Nibble(cs[i]) * Pow16(n - 1 - i)
    ensures 0 <= HexValue(cs, i + 1) * Pow16(n - (i + 1)) < 0x1_0000_0000
  {
    ShiftIn(HexValue(cs, i), Asc2Nibble(cs[i]), Pow16(n - 1 - i));
    HexValueBound(cs, i + 1);
    MulLess(HexValue(cs, i + 1), Pow16(i + 1), Pow16(n - (i + 1)));
    PowAdds(i + 1, n - (i + 1));
    Pow16Increases(n, 8);
    EightDigits();
  }

  lemma EightDigits()
    ensures Pow16(8) == 0x1_0000_0000
  {
    assert Pow16(4) == 16 * (16 * (16 * (16 * Pow16(0))));
    assert Pow16(8) == 16 * (16 * (16 * (16 * Pow16(4))));
  }

  lemma {:induction false} PowAdds(a: nat, b: nat)
    ensures Pow16(a + b) == Pow16(a) * Pow16(b)
  {
    if a > 0 {
      PowAdds(a - 1, b);
    }
  }

  /** The loop that ors the id's digits into the frame; reports a character that is no digit. */
  method ParseId(cs: string, n: nat, cf: CanFrame) returns (err: bool)
    requires n <= 8 && n <= |cs| && cf.canId == 0
    modifies cf`canId
    ensures err <==> exists i :: 0 <= i < n && Asc2Nibble(cs[i]) > 15
    ensures !err ==> cf.canId == HexValue(cs, n)
  {
    var i := 0;
    while i < n
      invariant 0 <= i <= n && AllHex(cs, i)
      invariant cf.canId == HexValue(cs, i) * Pow16(n - i)
    {
      var tmp := Asc2Nibble(cs[i]);
      if tmp > 0x0F {
        return true;
      }
      ShiftedDigitsFit(cs, i, n);
      cf.canId := cf.canId + tmp * Pow16(n - 1 - i);
      i := i + 1;
    }
    err := false;
  }

  function Prepend(bytes: seq<Byte>, r: Bytes): Bytes {
    if r.BadDigit? then BadDigit else Data(bytes + r.bytes)
  }

  /** One round of the data loop: an optional dot, then two digits into byte i. */
  method ParseByte(cs: string, len: nat, idx: nat, i: nat, cf: CanFrame) returns (idx': nat, done: bool, err: bool)
    requires idx <= len < |cs| && cs[len] == NUL && cf.Valid() && i < 8
    modifies cf.data
    ensures forall j :: 0 <= j < 8 && j != i ==> cf.data[j] == old(cf.data[j])
    ensures done ==> cf.data[i] == old(cf.data[i]) && ParseBytes(cs, len, idx, 8 - i) == Data([])
    ensures err ==> ParseBytes(cs, len, idx, 8 - i).BadDigit?
    ensures !done && !err ==>
              idx' <= len && ParseBytes(cs, len, idx, 8 - i) == Prepend([cf.data[i]], ParseBytes(cs, len, idx', 8 - i - 1))
  {
    idx', done, err := idx, false, false;
    if cs[idx'] == '.' {
      idx' := idx' + 1;
    }
    if idx' >= len {
      return idx', true, false;
    }
    var tmp := Asc2Nibble(cs[idx']);
    idx' := idx' + 1;
    if tmp > 0x0F {
      return idx', false, true;
    }
    cf.data[i] := tmp * 16;
    tmp := Asc2Nibble(cs[idx']);
    idx' := idx' + 1;
    if tmp > 0x0F {
      return idx', false, true;
    }
    cf.data[i] := cf.data[i] + tmp;
  }

  lemma PrependTwice(a: seq<Byte>, b: seq<Byte>, r: Bytes)
    ensures Prepend(a, Prepend(b, r)) == Prepend(a + b, r)
  {
    if r.Data? {
      assert a + (b + r.bytes) == (a + b) + r.bytes;
    }
  }

  /** The data loop; the bytes it does not reach keep their values. */
  method ParseData(cs: string, len: nat, start: nat, cf: CanFrame) returns (dlc: nat, err: bool)
    requires start <= len < |cs| && cs[len] == NUL && cf.Valid()
    modifies cf.data
    ensures err <==> ParseBytes(cs, len, start, 8).BadDigit?
    ensures !err ==> dlc <= 8 && ParseBytes(cs, len, start, 8) == Data(cf.data[..dlc])
    ensures !err ==> forall j :: dlc <= j < 8 ==> cf.data[j] == old(cf.data[j])
  {
    hide ParseBytes;
    var idx: nat, done := start, false;
    dlc := 0;
    assert cf.data[..0] == [];
    assert ParseBytes(cs, len, start, 8) == Prepend([], ParseBytes(cs, len, start, 8));
    while dlc < 8
      invariant 0 <= dlc <= 8 && idx <= len
      invariant ParseBytes(cs, len, start, 8) == Prepend(cf.data[..dlc], ParseBytes(cs, len, idx, 8 - dlc))
      invariant forall j :: dlc <= j < 8 ==> cf.data[j] == old(cf.data[j])
    {
      ghost var before := cf.data[..dlc];
      var next: nat;
      next, done, err := ParseByte(cs, len, idx, dlc, cf);
      assert cf.data[..dlc] == before;
      if done {
        return dlc, false;
      }
      if err {
        return dlc, true;
      }
      PrependTwice(before, [cf.data[dlc]], ParseBytes(cs, len, next, 8 - dlc - 1));
      assert cf.data[..dlc + 1] == before + [cf.data[dlc]];
      idx, dlc := next, dlc + 1;
    }
    NoRoundsLeft(cs, len, idx);
    err := false;
  }

  lemma NoRoundsLeft(cs: string, len: nat, idx: nat)
    requires idx <= len < |cs| && cs[len] == NUL
    ensures ParseBytes(cs, len, idx, 0) == Data([])
  {
  }

  /** Clears the frame, then fills it from the text; on an error the frame is left half filled. */
  method ParseCanframe(cs: string, cf: CanFrame) returns (err: bool)
    requires Readable(cs) && cf.Valid()
    modifies cf, cf.data
    ensures err <==> Parse(cs).Rejected?
    ensures !err ==> cf.View() == Parse(cs).frame
  {
    var len := |CStr(cs)|;
    cf.canId, cf.canDlc := 0, 0;
    forall i | 0 <= i < 8 {
      cf.data[i] := 0;
    }
    assert cf.data[..] == Padded([]);
    if len < 4 {
      return true;
    }
    var n;
    if cs[3] == '#' {
      n := 3;
    } else if cs[8] == '#' {
      n := 8;
    } else {
      return true;
    }
    var bad := ParseId(cs, n, cf);
    if bad {
      return true;
    }
    DigitsBound(cs, n);
    DigitsAreInText(cs, n);
    if n == 8 && !Has(cf.canId, ERR_FLAG) {
      cf.canId := With(cf.canId, EFF_FLAG);
    }
    var idx := n + 1;
    if cs[idx] == 'R' || cs[idx] == 'r' {
      cf.canId := With(cf.canId, RTR_FLAG);
      return false;
    }
    var dlc;
    dlc, err := ParseData(cs, len, idx, cf);
    if err {
      return true;
    }
    cf.canDlc := dlc;
    assert cf.data[..] == cf.data[..dlc] + cf.data[dlc..];
    assert cf.data[..] == Padded(cf.data[..dlc]);
  }

  /** Printed into a fresh buffer and parsed into another frame, a frame arrives in its normal form. */
  method Copy(cf: CanFrame, sep: int) returns (cf': CanFrame, err: bool)
    requires cf.Valid()
    ensures !err && cf'.View() == Normal(cf.View())
  {
    var buf := new char[BUFFER_SIZE];
    SprintCanframe(buf, cf, sep);
    cf' := new CanFrame();
    PrintIsNulFree(cf.View(), sep != 0);
    ParseAfterPrint(buf[..], cf.View(), sep != 0);
    err := ParseCanframe(buf[..], cf');
  }

  /** Overwrites the first bytes of the data from an even number of up to 16 hex digits; the others keep their values. */
  method HexString2CanData(arg: string, cf: CanFrame) returns (err: bool)
    requires NulFree(arg) && cf.Valid()
    modifies cf.data
    ensures err <==> |arg| == 0 || |arg| % 2 != 0 || |arg| > 16 || exists i :: 0 <= i < |arg| && Asc2Nibble(arg[i]) > 15
    ensures !err ==> forall i :: 0 <= i < |arg| / 2 ==> cf.data[i] == 16 * Asc2Nibble(arg[2 * i]) + Asc2Nibble(arg[2 * i + 1])
    ensures forall i :: |arg| / 2 <= i < 8 ==> cf.data[i] == old(cf.data[i])
  {
    hide Asc2Nibble;
    var len := |arg|;
    if len == 0 || len % 2 != 0 || len > 16 {
      return true;
    }
    var i := 0;
    while i < len / 2
      invariant 0 <= i <= len / 2
      invariant forall j :: 0 <= j < 2 * i ==> Asc2Nibble(arg[j]) <= 15
      invariant forall j :: 0 <= j < i ==> cf.data[j] == 16 * Asc2Nibble(arg[2 * j]) + Asc2Nibble(arg[2 * j + 1])
      invariant forall j :: len / 2 <= j < 8 ==> cf.data[j] == old(cf.data[j])
    {
      var tmp := Asc2Nibble(arg[2 * i]);
      if tmp > 0x0F {
        return true;
      }
      cf.data[i] := tmp * 16;
      tmp := Asc2Nibble(arg[2 * i + 1]);
      if tmp > 0x0F {
        return true;
      }
      cf.data[i] := cf.data[i] + tmp;
      i := i + 1;
    }
    err := false;
  }
}
