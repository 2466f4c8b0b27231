/** The compact text form of a CAN frame: printing, parsing, and how the two undo each other. */
module CanText {
  import opened CStrings
  import opened Machine

  type CanId = UInt32

  const EFF_FLAG := 0x8000_0000
  const RTR_FLAG := 0x4000_0000
  const ERR_FLAG := 0x2000_0000
  const BUFFER_SIZE := 34

  /** id & flag, for a flag that is a power of two. */
  predicate Has(id: CanId, flag: int)
    requires flag == EFF_FLAG || flag == RTR_FLAG || flag == ERR_FLAG
  {
    id / flag % 2 == 1
  }

  /** id | flag. */
  function With(id: CanId, flag: int): CanId
    requires flag == EFF_FLAG || flag == RTR_FLAG || flag == ERR_FLAG
  {
    if Has(id, flag) then id else id + flag
  }

  /** struct can_frame, with its eight data bytes. */
  datatype Frame = Frame(canId: CanId, dlc: Byte, data: seq<Byte>)

  ghost predicate FrameOk(f: Frame) {
    |f.data| == 8
  }

  // ---------- hexadecimal digits ----------

  /** The value of a hex digit, or 16. */
  function Asc2Nibble(c: char): (n: int)
    ensures 0 <= n <= 16
  {
    if '0' <= c <= '9' then c as int - '0' as int
    else if 'A' <= c <= 'F' then c as int - 'A' as int + 10
    else if 'a' <= c <= 'f' then c as int - 'a' as int + 10
    else 16
  }

  function HexChar(n: int): (c: char)
    requires 0 <= n < 16
    ensures Asc2Nibble(c) == n
  {
    if n < 10 then '0' + n as char else 'A' + (n - 10) as char
  }

  function Pow16(k: nat): (p: int)
    ensures 1 <= p
  {
    if k == 0 then 1 else 16 * Pow16(k - 1)
  }

  /** printf's %0<w>X, for a value that fits w digits. */
  function Hex(v: nat, w: nat): (s: string)
    ensures |s| == w
    ensures forall i :: 0 <= i < w ==> Asc2Nibble(s[i]) < 16
  {
    if w == 0 then "" else Hex(v / 16, w - 1) + [HexChar(v % 16)]
  }

  ghost predicate AllHex(s: string, n: nat)
    requires n <= |s|
  {
    forall i :: 0 <= i < n ==> Asc2Nibble(s[i]) < 16
  }

  /** The value of the first n characters, read as hex digits. */
  function HexValue(s: string, n: nat): (v: int)
    requires n <= |s| && forall i :: 0 <= i < n ==> Asc2Nibble(s[i]) < 16
    ensures 0 <= v
  {
    if n == 0 then 0 else 16 * HexValue(s, n - 1) + Asc2Nibble(s[n - 1])
  }

  lemma {:induction false} HexValueBound(s: string, n: nat)
    requires n <= |s| && AllHex(s, n)
    ensures HexValue(s, n) < Pow16(n)
  {
    if n > 0 {
      HexValueBound(s, n - 1);
    }
  }

  lemma {:induction false} HexValueOfPrefix(s: string, t: string, n: nat)
    requires n <= |s| && n <= |t| && AllHex(s, n) && s[..n] == t[..n]
    ensures AllHex(t, n) && HexValue(s, n) == HexValue(t, n)
  {
    forall i | 0 <= i < n
      ensures t[i] == s[i]
    {
      assert t[..n][i] == s[..n][i];
    }
    if n > 0 {
      assert s[..n - 1] == s[..n][..n - 1] == t[..n - 1];
      HexValueOfPrefix(s, t, n - 1);
    }
  }

  lemma {:induction false} HexRoundTrip(v: nat, w: nat)
    requires v < Pow16(w)
    ensures HexValue(Hex(v, w), w) == v
  {
    if w > 0 {
      var s, t := Hex(v, w), Hex(v / 16, w - 1);
      HexRoundTrip(v / 16, w - 1);
      assert s[..w - 1] == t[..w - 1];
      HexValueOfPrefix(t, s, w - 1);
    }
  }

  // ---------- printing ----------

  function PrintId(id: CanId): (s: string)
    ensures |s| == 3 || |s| == 8
  {
    if Has(id, ERR_FLAG) then Hex(id % 0x4000_0000, 8)
    else if Has(id, EFF_FLAG) then Hex(id % 0x2000_0000, 8)
    else Hex(id % 0x800, 3)
  }

  /** printf's %02X for one byte. */
  function Hex2(b: Byte): (s: string)
    ensures |s| == 2
  {
    [HexChar(b / 16), HexChar(b % 16)]
  }

  /** Bytes i to n, two digits each; with sep a dot after all but the last, so before all but the first. */
  function PrintBytes(data: seq<Byte>, i: nat, n: nat, sep: bool, dot: bool): (s: string)
    requires i <= n <= |data|
    ensures |s| <= 3 * (n - i) && (i < n && !dot ==> |s| <= 3 * (n - i) - 1)
    decreases n - i
  {
    if i == n then "" else (if dot then "." else "") + (Hex2(data[i]) + PrintBytes(data, i + 1, n, sep, sep))
  }

  function Dlc(f: Frame): nat {
    if f.dlc > 8 then 8 else f.dlc
  }

  /** The text printed for a frame; with its NUL it fits the 34-byte buffer. */
  function Print(f: Frame, sep: bool): (s: string)
    requires FrameOk(f)
    ensures 4 <= |s| <= 32 < BUFFER_SIZE
  {
    PrintId(f.canId) + "#" + (if Has(f.canId, RTR_FLAG) then "R" else PrintBytes(f.data, 0, Dlc(f), sep, false))
  }

  // ---------- parsing ----------

  datatype Bytes = BadDigit | Data(bytes: seq<Byte>)

  /** The data loop from character idx, reading at most n bytes: one dot may stand before each byte. */
  function ParseBytes(cs: string, len: nat, idx: nat, n: nat): (r: Bytes)
    requires idx <= len < |cs| && cs[len] == NUL
    ensures r.Data? ==> |r.bytes| <= n
    decreases n
  {
    if n == 0 then Data([])
    else
      var at := if cs[idx] == '.' then idx + 1 else idx;
      if at >= len then Data([])
      else
        var hi, lo := Asc2Nibble(cs[at]), Asc2Nibble(cs[at + 1]);
        if hi > 15 || lo > 15 then BadDigit
        else
          var rest := ParseBytes(cs, len, at + 2, n - 1);
          if rest.BadDigit? then BadDigit else Data([16 * hi + lo] + rest.bytes)
  }

  function Padded(bytes: seq<Byte>): (data: seq<Byte>)
    requires |bytes| <= 8
    ensures |data| == 8
  {
    bytes + seq(8 - |bytes|, _ => 0)
  }

  datatype Parsed = Rejected | Accepted(frame: Frame)

  /** After the id and '#': a remote request, or data bytes. */
  function ParseRest(cs: string, len: nat, idx: nat, id: CanId): (r: Parsed)
    requires idx <= len < |cs| && cs[len] == NUL
  {
    if cs[idx] == 'R' || cs[idx] == 'r' then Accepted(Frame(With(id, RTR_FLAG), 0, Padded([])))
    else
      var bytes := ParseBytes(cs, len, idx, 8);
      if bytes.BadDigit? then Rejected else Accepted(Frame(id, |bytes.bytes|, Padded(bytes.bytes)))
  }

  /** A buffer parse may read: it holds a NUL, and its ninth character exists if the fourth one is not '#'. */
  ghost predicate Readable(cs: string) {
    |CStr(cs)| < |cs| && (4 <= |CStr(cs)| && cs[3] != '#' ==> 9 <= |cs|)
  }

  /** How many digits the id has, going by where '#' stands; 0 when it stands nowhere. */
  function IdDigits(cs: string): nat
    requires Readable(cs)
  {
    if |CStr(cs)| < 4 then 0 else if cs[3] == '#' then 3 else if cs[8] == '#' then 8 else 0
  }

  function IdOf(v: int, digits: nat): CanId
    requires 0 <= v < 0x1_0000_0000
  {
    if digits == 8 && !Has(v, ERR_FLAG) then With(v, EFF_FLAG) else v
  }

  lemma DigitsBound(cs: string, n: nat)
    requires n <= 8 && n <= |cs| && AllHex(cs, n)
    ensures HexValue(cs, n) < 0x1_0000_0000
    ensures n == 3 ==> HexValue(cs, n) < 0x1000
  {
    HexValueBound(cs, n);
    assert Pow16(8) == 16 * (16 * (16 * (16 * Pow16(4))));
    assert Pow16(4) == 16 * (16 * (16 * (16 * Pow16(0))));
    assert Pow16(3) == 16 * (16 * (16 * Pow16(0)));
    Pow16Increases(n, 8);
  }

  lemma {:induction false} Pow16Increases(a: nat, b: nat)
    requires a <= b
    ensures Pow16(a) <= Pow16(b)
  {
    if a < b {
      Pow16Increases(a, b - 1);
    }
  }

  /** Digits are hex only before the string's end, so an id with as many digits as that ends before the string does. */
  lemma DigitsAreInText(cs: string, n: nat)
    requires n < |cs| && AllHex(cs, n) && cs[n] == '#'
    ensures n < |CStr(cs)|
  {
    if |CStr(cs)| <= n {
      assert cs[|CStr(cs)|] == NUL;
    }
  }

  function Parse(cs: string): (r: Parsed)
    requires Readable(cs)
    ensures r.Accepted? ==> FrameOk(r.frame)
  {
    var n, len := IdDigits(cs), |CStr(cs)|;
    if n == 0 || exists i :: 0 <= i < n && Asc2Nibble(cs[i]) > 15 then Rejected
    else
      DigitsBound(cs, n);
      DigitsAreInText(cs, n);
      ParseRest(cs, len, n + 1, IdOf(HexValue(cs, n), n))
  }

  // ---------- parsing what was printed ----------

  /** The id's bits that the text shows: which ones depends on the kind of frame. */
  function NormalId(id: CanId): CanId {
    if Has(id, ERR_FLAG) then id % 0x4000_0000
    else if Has(id, EFF_FLAG) then With(id % 0x2000_0000, EFF_FLAG)
    else id % 0x800
  }

  /** The one frame that all frames printing the same text stand for. */
  function Normal(f: Frame): (r: Frame)
    requires FrameOk(f)
    ensures FrameOk(r)
  {
    if Has(f.canId, RTR_FLAG) then Frame(With(NormalId(f.canId), RTR_FLAG), 0, Padded([]))
    else Frame(NormalId(f.canId), Dlc(f), Padded(f.data[..Dlc(f)]))
  }

  /** One round of the data loop, when two hex digits are there. */
  lemma ParseOneByte(cs: string, len: nat, idx: nat, at: nat, k: nat, b: Byte)
    requires idx <= at && at + 1 < len < |cs| && cs[len] == NUL && 0 < k
    requires if at == idx then cs[at] != '.' else at == idx + 1 && cs[idx] == '.'
    requires cs[at] == Hex2(b)[0] && cs[at + 1] == Hex2(b)[1]
    ensures ParseBytes(cs, len, idx, k) ==
            var rest := ParseBytes(cs, len, at + 2, k - 1); if rest.BadDigit? then BadDigit else Data([b] + rest.bytes)
  {
  }

  lemma FirstPrintedByte(cs: string, len: nat, idx: nat, lead: string, b: Byte, tail: string, k: nat)
    requires idx <= len < |cs| && cs[len] == NUL && 0 < k && (lead == "" || lead == ".")
    requires cs[idx..len] == lead + (Hex2(b) + tail)
    ensures var at := idx + |lead|;
            && at + 2 <= len && cs[at + 2..len] == tail
            && ParseBytes(cs, len, idx, k) ==
               var rest := ParseBytes(cs, len, at + 2, k - 1); if rest.BadDigit? then BadDigit else Data([b] + rest.bytes)
  {
    hide ParseBytes;
    var at := idx + |lead|;
    WindowSplit(cs, idx, len, lead, Hex2(b) + tail);
    WindowSplit(cs, at, len, Hex2(b), tail);
    assert Asc2Nibble('.') == 16;
    assert cs[at + 0] == Hex2(b)[0] && cs[at + 1] == Hex2(b)[1];
    assert lead == "." ==> cs[idx + 0] == '.';
    ParseOneByte(cs, len, idx, at, k, b);
  }

  /** The bytes come back, whether or not dots separate them. */
  lemma {:induction false} BytesComeBack(cs: string, len: nat, idx: nat, data: seq<Byte>, i: nat, n: nat, sep: bool, dot: bool, k: nat)
    requires idx <= len < |cs| && cs[len] == NUL && i <= n <= |data| && n - i <= k
    requires cs[idx..len] == PrintBytes(data, i, n, sep, dot)
    ensures ParseBytes(cs, len, idx, k) == Data(data[i..n])
    decreases n - i
  {
    hide Hex2;
    if i < n {
      var lead := if dot then "." else "";
      FirstPrintedByte(cs, len, idx, lead, data[i], PrintBytes(data, i + 1, n, sep, sep), k);
      hide PrintBytes, ParseBytes;
      BytesComeBack(cs, len, idx + |lead| + 2, data, i + 1, n, sep, sep, k - 1);
      assert data[i..n] == [data[i]] + data[i + 1..n];
    }
  }

  /** The id as it is printed, and what flags the digits stand for. */
  function Masked(id: CanId): (v: CanId)
    ensures Has(id, ERR_FLAG) ==> Has(v, ERR_FLAG)
    ensures !Has(id, ERR_FLAG) ==> !Has(v, ERR_FLAG)
  {
    if Has(id, ERR_FLAG) then id % 0x4000_0000
    else if Has(id, EFF_FLAG) then id % 0x2000_0000
    else id % 0x800
  }

  lemma IdComesBack(id: CanId)
    ensures var s := PrintId(id); HexValue(s, |s|) == Masked(id)
    ensures IdOf(Masked(id), |PrintId(id)|) == (if !Has(id, ERR_FLAG) && Has(id, EFF_FLAG) then With(Masked(id), EFF_FLAG) else Masked(id))
  {
    assert Pow16(3) == 16 * (16 * (16 * Pow16(0)));
    assert Pow16(4) == 16 * Pow16(3);
    assert Pow16(8) == 16 * (16 * (16 * (16 * Pow16(4))));
    HexRoundTrip(Masked(id), |PrintId(id)|);
  }

  lemma HexIsNulFree(v: nat, w: nat)
    ensures NulFree(Hex(v, w))
  {
    assert Asc2Nibble(NUL) == 16;
  }

  lemma {:induction false} PrintedBytesAreNulFree(data: seq<Byte>, i: nat, n: nat, sep: bool, dot: bool)
    requires i <= n <= |data|
    ensures NulFree(PrintBytes(data, i, n, sep, dot))
    ensures PrintBytes(data, i, n, sep, dot) != "" && !dot ==> Asc2Nibble(PrintBytes(data, i, n, sep, dot)[0]) < 16
    decreases n - i
  {
    if i < n {
      var rest := PrintBytes(data, i + 1, n, sep, sep);
      PrintedBytesAreNulFree(data, i + 1, n, sep, sep);
      assert NulFree(Hex2(data[i])) by { assert Asc2Nibble(NUL) == 16; }
      NulFreeConcat(Hex2(data[i]), rest);
      NulFreeConcat(if dot then "." else "", Hex2(data[i]) + rest);
    }
  }

  /** What follows the id and '#'. */
  function PrintRest(f: Frame, sep: bool): (s: string)
    requires FrameOk(f)
    ensures |s| <= 23
  {
    if Has(f.canId, RTR_FLAG) then "R" else PrintBytes(f.data, 0, Dlc(f), sep, false)
  }

  lemma PrintIsNulFree(f: Frame, sep: bool)
    requires FrameOk(f)
    ensures NulFree(Print(f, sep))
  {
    PrintedBytesAreNulFree(f.data, 0, Dlc(f), sep, false);
    var a, b := PrintId(f.canId), PrintRest(f, sep);
    HexIsNulFree(Masked(f.canId), |a|);
    assert Print(f, sep) == a + "#" + b;
  }

  /** Reading the part after '#' back gives the data, or the remote request flag. */
  lemma RestComesBack(cs: string, len: nat, idx: nat, f: Frame, sep: bool, id: CanId)
    requires FrameOk(f) && idx <= len < |cs| && cs[len] == NUL && cs[idx..len] == PrintRest(f, sep)
    ensures ParseRest(cs, len, idx, id) ==
            Accepted(if Has(f.canId, RTR_FLAG) then Frame(With(id, RTR_FLAG), 0, Padded([]))
                     else Frame(id, Dlc(f), Padded(f.data[..Dlc(f)])))
  {
    if Has(f.canId, RTR_FLAG) {
      assert cs[idx] == cs[idx..len][0];
    } else {
      var w := PrintBytes(f.data, 0, Dlc(f), sep, false);
      PrintedBytesAreNulFree(f.data, 0, Dlc(f), sep, false);
      assert Asc2Nibble('R') == 16 && Asc2Nibble('r') == 16;
      if w != "" { assert cs[idx] == cs[idx..len][0]; }
      BytesComeBack(cs, len, idx, f.data, 0, Dlc(f), sep, false, 8);
    }
  }

  /** A buffer that holds the printed text, its NUL, and whatever was in it before. */
  ghost predicate Holds(cs: string, text: string) {
    |text| < |cs| && cs[..|text|] == text && cs[|text|] == NUL && NulFree(text)
  }

  lemma HeldText(cs: string, text: string)
    requires Holds(cs, text)
    ensures CStr(cs) == text
    ensures 4 <= |text| && (text[3] != '#' ==> 9 <= |text|) ==> Readable(cs)
  {
    CStrOfTerminated(text, cs[|text|..]);
    assert cs == text + cs[|text|..];
    assert 4 <= |text| ==> cs[3] == cs[..|text|][3];
  }

  /** Where the id of a printed frame is found, and that it reads back. */
  lemma HeldId(cs: string, f: Frame, sep: bool)
    requires FrameOk(f) && Holds(cs, Print(f, sep))
    ensures Readable(cs) && IdDigits(cs) == |PrintId(f.canId)| && AllHex(cs, |PrintId(f.canId)|)
    ensures HexValue(cs, |PrintId(f.canId)|) == Masked(f.canId)
    ensures cs[|PrintId(f.canId)| + 1..|Print(f, sep)|] == PrintRest(f, sep)
  {
    hide PrintId, HexValue, AllHex, Holds, Print, PrintRest, Readable, IdDigits, Masked, CStr;
    var a, rest := PrintId(f.canId), PrintRest(f, sep);
    PrintParts(f, sep);
    PrintedIdIsHex(f.canId);
    IdComesBack(f.canId);
    HeldParts(cs, a, rest);
    HexValueOfPrefix(a, cs, |a|);
  }

  lemma PrintParts(f: Frame, sep: bool)
    requires FrameOk(f)
    ensures Print(f, sep) == PrintId(f.canId) + ("#" + PrintRest(f, sep))
  {
    hide PrintId, PrintBytes;
  }

  lemma PrintedIdIsHex(id: CanId)
    ensures AllHex(PrintId(id), |PrintId(id)|)
  {
    hide Hex;
  }

  /** Where the parts of a held text stand, when its first part is an id. */
  lemma HeldParts(cs: string, a: string, rest: string)
    requires Holds(cs, a + ("#" + rest)) && (|a| == 3 || |a| == 8) && AllHex(a, |a|)
    ensures Readable(cs) && IdDigits(cs) == |a| && |a| + 1 + |rest| <= |cs| && cs[..|a|] == a && cs[|a| + 1..|a| + 1 + |rest|] == rest
  {
    var text := a + ("#" + rest);
    HeldText(cs, text);
    assert cs[0..|text|] == text;
    WindowSplit(cs, 0, |text|, a, "#" + rest);
    WindowSplit(cs, |a|, |text|, "#", rest);
    assert cs[|a| + 0] == '#' == text[|a|];
    assert Asc2Nibble('#') == 16;
    assert |a| == 8 ==> cs[0 + 3] == a[3] == text[3];
    hide NulFree, CStr;
  }

  /** Parsing what was printed gives the frame's normal form, whatever sep was. */
  lemma ParseAfterPrint(cs: string, f: Frame, sep: bool)
    requires FrameOk(f) && Holds(cs, Print(f, sep))
    ensures Readable(cs) && Parse(cs) == Accepted(Normal(f))
  {
    hide Print, PrintId, HexValue, ParseRest, Hex, CStr;
    HeldText(cs, Print(f, sep));
    HeldId(cs, f, sep);
    IdComesBack(f.canId);
    RestComesBack(cs, |CStr(cs)|, IdDigits(cs) + 1, f, sep, IdOf(Masked(f.canId), IdDigits(cs)));
  }

  // ---------- consequences ----------

  /** An id taken apart into its three flag bits and the rest. */
  function Make(e: int, r: int, x: int, low: int): CanId
    requires 0 <= e <= 1 && 0 <= r <= 1 && 0 <= x <= 1 && 0 <= low < ERR_FLAG
  {
    EFF_FLAG * e + RTR_FLAG * r + ERR_FLAG * x + low
  }

  lemma Bits(e: int, r: int, x: int, low: int)
    requires 0 <= e <= 1 && 0 <= r <= 1 && 0 <= x <= 1 && 0 <= low < ERR_FLAG
    ensures var id := Make(e, r, x, low);
            && (Has(id, EFF_FLAG) <==> e == 1) && (Has(id, RTR_FLAG) <==> r == 1) && (Has(id, ERR_FLAG) <==> x == 1)
            && With(id, EFF_FLAG) == Make(1, r, x, low) && With(id, RTR_FLAG) == Make(e, 1, x, low)
            && id % 0x4000_0000 == Make(0, 0, x, low) && id % 0x2000_0000 == low
    ensures Make(e, r, x, low) % 0x800 == low % 0x800 < ERR_FLAG
  {
  }

  lemma TakeApart(id: CanId) returns (e: int, r: int, x: int, low: int)
    ensures 0 <= e <= 1 && 0 <= r <= 1 && 0 <= x <= 1 && 0 <= low < ERR_FLAG && id == Make(e, r, x, low)
  {
    e, r, x, low := id / EFF_FLAG, id / RTR_FLAG % 2, id / ERR_FLAG % 2, id % ERR_FLAG;
  }

  /** The normal id again, in terms of the bits. */
  lemma NormalIdBits(e: int, r: int, x: int, low: int)
    requires 0 <= e <= 1 && 0 <= r <= 1 && 0 <= x <= 1 && 0 <= low < ERR_FLAG
    ensures NormalId(Make(e, r, x, low)) ==
            if x == 1 then Make(0, 0, 1, low) else if e == 1 then Make(1, 0, 0, low) else Make(0, 0, 0, low % 0x800)
  {
    hide With, Has;
    Bits(e, r, x, low);
    Bits(0, 0, 0, low);
  }

  lemma NormalIdIsStable(id: CanId)
    ensures NormalId(With(NormalId(id), RTR_FLAG)) == NormalId(id) && NormalId(NormalId(id)) == NormalId(id)
    ensures !Has(NormalId(id), RTR_FLAG) && Has(With(NormalId(id), RTR_FLAG), RTR_FLAG)
  {
    var e, r, x, low := TakeApart(id);
    hide With, Has, NormalId;
    NormalIdBits(e, r, x, low);
    var e', low' := if x == 1 then 0 else e, if x == 1 || e == 1 then low else low % 0x800;
    Bits(e', 0, x, low');
    Bits(e', 1, x, low');
    NormalIdBits(e', 0, x, low');
    NormalIdBits(e', 1, x, low');
  }

  lemma PaddedPrefix(d: seq<Byte>)
    requires |d| <= 8
    ensures Padded(d)[..|d|] == d
  {
  }

  lemma NormalIsIdempotent(f: Frame)
    requires FrameOk(f)
    ensures Normal(Normal(f)) == Normal(f)
  {
    hide With, Has, NormalId;
    NormalIdIsStable(f.canId);
    PaddedPrefix(f.data[..Dlc(f)]);
  }

  lemma {:induction false} PrintBytesOfPrefix(data: seq<Byte>, data': seq<Byte>, i: nat, n: nat, sep: bool, dot: bool)
    requires i <= n <= |data| && n <= |data'| && forall j :: 0 <= j < n ==> data[j] == data'[j]
    ensures PrintBytes(data, i, n, sep, dot) == PrintBytes(data', i, n, sep, dot)
    decreases n - i
  {
    if i == n {
      NoBytesPrinted(data, n, sep, dot);
      NoBytesPrinted(data', n, sep, dot);
    } else {
      PrintBytesNext(data, i, n, sep, dot);
      PrintBytesNext(data', i, n, sep, dot);
      hide Hex2, PrintBytes;
      PrintBytesOfPrefix(data, data', i + 1, n, sep, sep);
    }
  }

  lemma NoBytesPrinted(data: seq<Byte>, n: nat, sep: bool, dot: bool)
    requires n <= |data|
    ensures PrintBytes(data, n, n, sep, dot) == ""
  {
  }

  lemma PrintBytesNext(data: seq<Byte>, i: nat, n: nat, sep: bool, dot: bool)
    requires i < n <= |data|
    ensures PrintBytes(data, i, n, sep, dot)
            == (if dot then "." else "") + (Hex2(data[i]) + PrintBytes(data, i + 1, n, sep, sep))
  {
  }

  lemma PrintIdOfNormal(id: CanId)
    ensures PrintId(NormalId(id)) == PrintId(id) && PrintId(With(NormalId(id), RTR_FLAG)) == PrintId(id)
  {
    var e, r, x, low := TakeApart(id);
    hide With, Has, NormalId, Hex;
    NormalIdBits(e, r, x, low);
    Bits(e, r, x, low);
    var e', low' := if x == 1 then 0 else e, if x == 1 || e == 1 then low else low % 0x800;
    Bits(e', 0, x, low');
    Bits(e', 1, x, low');
  }

  lemma PrintOfNormal(f: Frame, sep: bool)
    requires FrameOk(f)
    ensures Print(Normal(f), sep) == Print(f, sep)
  {
    hide With, Has, NormalId, PrintId;
    PrintIdOfNormal(f.canId);
    NormalIdIsStable(f.canId);
    PaddedPrefix(f.data[..Dlc(f)]);
    if !Has(f.canId, RTR_FLAG) {
      PrintBytesOfPrefix(f.data, Padded(f.data[..Dlc(f)]), 0, Dlc(f), sep, false);
    }
  }

  /** The text names the normal form: two frames print alike exactly when they have the same one. */
  lemma PrintIsCanonical(f: Frame, g: Frame, sep: bool)
    requires FrameOk(f) && FrameOk(g)
    ensures Print(f, sep) == Print(g, sep) <==> Normal(f) == Normal(g)
  {
    hide Print, Normal, Parse;
    PrintOfNormal(f, sep);
    PrintOfNormal(g, sep);
    if Print(f, sep) == Print(g, sep) {
      PrintIsNulFree(f, sep);
      var cs := Print(f, sep) + seq(9, _ => NUL);
      assert cs[..|Print(f, sep)|] == Print(f, sep);
      ParseAfterPrint(cs, f, sep);
      ParseAfterPrint(cs, g, sep);
    }
  }

  /** From position i on the text asks for a remote request, ends, or holds one last dot. */
  predicate NoDataFrom(cs: string, i: nat) {
    |CStr(cs)| <= i || cs[i] == 'R' || cs[i] == 'r' || (cs[i] == '.' && |CStr(cs)| == i + 1)
  }

  /**
   * What an accepted text must satisfy to survive reprinting: a three-digit id below 800, or an eight-digit id that is not
   * both an error and an extended one, and whose remote request bit, if set, comes with no data.
   */
  ghost predicate Reprintable(cs: string)
    requires Readable(cs) && AllHex(cs, IdDigits(cs))
  {
    var n := IdDigits(cs);
    DigitsBound(cs, n);
    var v := HexValue(cs, n);
    if n == 3 then v < 0x800
    else !(Has(v, ERR_FLAG) && Has(v, EFF_FLAG)) && (Has(v, RTR_FLAG) ==> NoDataFrom(cs, n + 1))
  }

  lemma AcceptedHasDigits(cs: string)
    requires Readable(cs) && Parse(cs).Accepted?
    ensures AllHex(cs, IdDigits(cs)) && (Parse(cs).frame.dlc == 0 <==> NoDataFrom(cs, IdDigits(cs) + 1))
  {
    DigitsBound(cs, IdDigits(cs));
    DigitsAreInText(cs, IdDigits(cs));
    hide HexValue, With, Has;
  }

  /** Reprinting an accepted text and parsing it again gives the same frame exactly when the text is reprintable. */
  lemma ReprintKeepsFrameIff(cs: string, sep: bool)
    requires Readable(cs) && Parse(cs).Accepted?
    ensures AllHex(cs, IdDigits(cs))
    ensures forall cs' :: Holds(cs', Print(Parse(cs).frame, sep)) ==>
              Readable(cs') && (Parse(cs') == Parse(cs) <==> Reprintable(cs))
  {
    var f := Parse(cs).frame;
    AcceptedHasDigits(cs);
    NormalIffReprintable(cs);
    hide Print, Readable, Reprintable, Holds, Normal;
    forall cs' | Holds(cs', Print(f, sep))
      ensures Readable(cs') && (Parse(cs') == Parse(cs) <==> Reprintable(cs))
    {
      ParseAfterPrint(cs', f, sep);
      hide Parse;
    }
  }

  lemma ParsedIsPadded(cs: string)
    requires Readable(cs) && Parse(cs).Accepted?
    ensures var f := Parse(cs).frame; f.dlc <= 8 && f.data == Padded(f.data[..f.dlc])
  {
    var f := Parse(cs).frame;
    var n := IdDigits(cs);
    var at := cs[n + 1];
    if at != 'R' && at != 'r' {
      PaddedPrefix(ParseBytes(cs, |CStr(cs)|, n + 1, 8).bytes);
    } else {
      assert f.data[..f.dlc] == [];
    }
  }

  /** The id of an accepted frame: the digits, the extended flag they imply, and the remote flag if the text asks for it. */
  lemma ParsedId(cs: string) returns (v: CanId, n: nat, remote: bool)
    requires Readable(cs) && Parse(cs).Accepted?
    ensures n == IdDigits(cs) && (n == 3 || n == 8) && AllHex(cs, n) && v == HexValue(cs, n) && (n == 3 ==> v < 0x1000)
    ensures Parse(cs).frame.canId == if remote then With(IdOf(v, n), RTR_FLAG) else IdOf(v, n)
    ensures remote ==> Parse(cs).frame.dlc == 0
  {
    n := IdDigits(cs);
    DigitsBound(cs, n);
    v, remote := HexValue(cs, n), cs[n + 1] == 'R' || cs[n + 1] == 'r';
    DigitsAreInText(cs, n);
  }

  /** When an id from the text is its own normal id, flag by flag. */
  lemma StableId(v: CanId, n: nat, remote: bool)
    requires n == 3 || n == 8
    requires n == 3 ==> v < 0x1000
    ensures var id := if remote then With(IdOf(v, n), RTR_FLAG) else IdOf(v, n);
            && (Has(id, RTR_FLAG) <==> remote || Has(v, RTR_FLAG))
            && ((if Has(id, RTR_FLAG) then With(NormalId(id), RTR_FLAG) else NormalId(id)) == id <==>
                if n == 3 then v < 0x800 else !(Has(v, ERR_FLAG) && Has(v, EFF_FLAG)))
  {
    var e, r, x, low := TakeApart(v);
    hide With, Has, NormalId;
    Bits(e, r, x, low);
    var e', r' := if n == 8 && x == 0 then 1 else e, if remote then 1 else r;
    assert n == 3 ==> e == 0 && r == 0 && x == 0 && low == v;
    Bits(e', r, x, low);
    Bits(e', r', x, low);
    NormalIdBits(e', r', x, low);
    var e2, low2 := if x == 1 then 0 else e', if x == 1 || e' == 1 then low else low % 0x800;
    Bits(e2, 0, x, low2);
    assert n == 3 ==> (low % 0x800 == low <==> low < 0x800);
  }

  lemma NormalIffReprintable(cs: string)
    requires Readable(cs) && Parse(cs).Accepted?
    ensures AllHex(cs, IdDigits(cs))
    ensures Normal(Parse(cs).frame) == Parse(cs).frame <==> Reprintable(cs)
  {
    ParsedIsPadded(cs);
    AcceptedHasDigits(cs);
    var v, n, remote := ParsedId(cs);
    hide NoDataFrom, Parse, With, Has, NormalId, IdOf, HexValue, IdDigits, Padded;
    StableId(v, n, remote);
    var f := Parse(cs).frame;
    if f.dlc == 0 {
      assert f.data[..f.dlc] == [];
    }
  }

  /** In particular every accepted id up to 7FF or 3FFFFFFF survives. */
  lemma SmallIdsAreReprintable(cs: string)
    requires Readable(cs) && Parse(cs).Accepted? && AllHex(cs, IdDigits(cs))
    requires HexValue(cs, IdDigits(cs)) < (if IdDigits(cs) == 3 then 0x800 else 0x4000_0000)
    ensures Reprintable(cs)
  {
    var v, n, remote := ParsedId(cs);
    hide Parse, HexValue, IdDigits, NoDataFrom;
  }

  lemma ExampleId(cs: string)
    requires Holds(cs, "A0000000#")
    ensures CStr(cs) == "A0000000#" && Readable(cs) && IdDigits(cs) == 8 && cs[9] == NUL
    ensures AllHex(cs, 8) && HexValue(cs, 8) == 0xA000_0000
  {
    var text := "A0000000#";
    HeldText(cs, text);
    assert forall i :: 0 <= i < 9 ==> cs[i] == cs[..9][i] == text[i];
    assert HexValue(cs, 1) == 0xA;
    assert HexValue(cs, 2) == 0xA0;
    assert HexValue(cs, 3) == 0xA00;
    assert HexValue(cs, 4) == 0xA000;
    assert HexValue(cs, 5) == 0xA_0000;
    assert HexValue(cs, 6) == 0xA0_0000;
    assert HexValue(cs, 7) == 0xA00_0000;
  }

  lemma EndsAtOnce(cs: string, len: nat, id: CanId)
    requires len < |cs| && cs[len] == NUL
    ensures ParseRest(cs, len, len, id).Accepted?
  {
  }

  /** "A0000000#" is accepted as an error frame that is extended too; reprinted, it comes back as a plain error frame. */
  lemma BothFlagsAreLost(cs: string, sep: bool)
    requires Holds(cs, "A0000000#")
    ensures Readable(cs) && Parse(cs).Accepted?
    ensures forall cs' :: Holds(cs', Print(Parse(cs).frame, sep)) ==> Readable(cs') && Parse(cs') != Parse(cs)
  {
    ExampleId(cs);
    EndsAtOnce(cs, 9, IdOf(0xA000_0000, 8));
    assert !Reprintable(cs);
    hide Print, Reprintable, CStr, ParseRest, HexValue, IdDigits, Readable, Holds;
    ReprintKeepsFrameIff(cs, sep);
  }
}
