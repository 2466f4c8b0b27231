/** The long, aligned text form of a CAN frame: where its columns stand, and what the swapped view does. */
module CanLong {
  import opened CStrings
  import opened CanText
  import opened CanFrames
  import opened Machine

  const LONGEST := 98

  /** The flags CANLIB_VIEW_ASCII, CANLIB_VIEW_BINARY and CANLIB_VIEW_SWAP. */
  datatype View = View(ascii: bool, binary: bool, swap: bool)

  function ViewOf(flags: int): View {
    View(flags % 2 == 1, flags / 2 % 2 == 1, flags / 4 % 2 == 1)
  }

  // ---------- printf's pieces ----------

  /** printf's %<w>s. */
  function PadLeft(s: string, w: int): string {
    if w > |s| then Spaces(w - |s|) + s else s
  }

  /** printf's %X: as few digits as the value needs. */
  function HexDigits(v: nat): (s: string)
    ensures 1 <= |s|
  {
    if v < 16 then [HexChar(v)] else HexDigits(v / 16) + [HexChar(v % 16)]
  }

  lemma {:induction false} HexDigitsFit(v: nat, w: nat)
    requires v < Pow16(w) && w > 0
    ensures |HexDigits(v)| <= w
  {
    if v >= 16 {
      HexDigitsFit(v / 16, w - 1);
    }
  }

  /** The digits write the value. */
  lemma {:induction false} HexDigitsAreRead(v: nat)
    ensures AllHex(HexDigits(v), |HexDigits(v)|) && HexValue(HexDigits(v), |HexDigits(v)|) == v
  {
    if v >= 16 {
      var s, t := HexDigits(v), HexDigits(v / 16);
      HexDigitsAreRead(v / 16);
      assert s[..|t|] == t[..|t|];
      HexValueOfPrefix(t, s, |t|);
    } else {
      assert HexValue(HexDigits(v), 0) == 0;
    }
  }

  // ---------- the text ----------

  /** The three kinds of id. */
  datatype Class = ErrorFrame | Extended | Standard

  function ClassOf(id: CanId): Class {
    if Has(id, ERR_FLAG) then ErrorFrame else if Has(id, EFF_FLAG) then Extended else Standard
  }

  function IdField(id: CanId): string {
    match ClassOf(id)
    case ErrorFrame => PadLeft(HexDigits(id % 0x4000_0000), 8) + "  "
    case Extended => PadLeft(HexDigits(id % 0x2000_0000), 8) + "  "
    case Standard => PadLeft(HexDigits(id % 0x800), 3) + "  "
  }

  /** Where the data starts: after the id, two spaces and the length in brackets. */
  function DataColumn(c: Class): nat {
    if c == Standard then 8 else 13
  }

  function Head(f: Frame): string {
    IdField(f.canId) + ['[', '0' + Dlc(f) as char, ']']
  }

  /** The n highest bits of a byte. */
  function Bits(b: Byte, n: nat): (s: string)
    requires n <= 8
    ensures |s| == n
  {
    if n == 0 then "" else Bits(b, n - 1) + [if Bit(b, 8 - n) then '1' else '0']
  }

  /** The value of the first n characters, read as binary digits. */
  function BinaryValue(s: string, n: nat): nat
    requires n <= |s|
  {
    if n == 0 then 0 else 2 * BinaryValue(s, n - 1) + if s[n - 1] == '1' then 1 else 0
  }

  lemma {:induction false} BinaryValueOfPrefix(s: string, t: string, n: nat)
    requires n <= |s| && n <= |t| && forall i :: 0 <= i < n ==> s[i] == t[i]
    ensures BinaryValue(s, n) == BinaryValue(t, n)
  {
    if n > 0 {
      BinaryValueOfPrefix(s, t, n - 1);
    }
  }

  /** The byte without its k lowest bits, moved down. */
  function Above(b: nat, k: nat): nat {
    if k == 0 then b else Above(b / 2, k - 1)
  }

  lemma {:induction false} OneBitMore(b: Byte, k: nat)
    ensures Above(b, k) == 2 * Above(b, k + 1) + if Bit(b, k) then 1 else 0
  {
    if k > 0 {
      OneBitMore(b / 2, k - 1);
    }
  }

  lemma {:induction false} NothingAbove(b: nat, k: nat)
    requires b < Pow2(k)
    ensures Above(b, k) == 0
  {
    if k > 0 {
      NothingAbove(b / 2, k - 1);
    }
  }

  lemma {:induction false} BitsWrite(b: Byte, n: nat)
    requires n <= 8
    ensures BinaryValue(Bits(b, n), n) == Above(b, 8 - n)
  {
    if n == 0 {
      assert Pow2(4) == 16 && Pow2(8) == 16 * Pow2(4);
      NothingAbove(b, 8);
    } else {
      BitsWrite(b, n - 1);
      BinaryValueOfPrefix(Bits(b, n - 1), Bits(b, n), n - 1);
      OneBitMore(b, 8 - n);
    }
  }

  /** The eight binary digits write the byte. */
  lemma BitsAreRead(b: Byte)
    ensures BinaryValue(Bits(b, 8), 8) == b
  {
    BitsWrite(b, 8);
  }

  function ByteText(b: Byte, binary: bool): (s: string)
    ensures |s| == if binary then 8 else 2
  {
    if binary then Bits(b, 8) else Hex2(b)
  }

  /** The width of k byte columns, each with its delimiter. */
  function Columns(binary: bool, k: int): int {
    if binary then 9 * k else 3 * k
  }

  function Delimiter(k: nat, swap: bool): char {
    if k == 0 || !swap then ' ' else '`'
  }

  /** The bytes in the order a view lists them. */
  function Order(f: Frame, swap: bool): (bytes: seq<Byte>)
    requires FrameOk(f)
    ensures |bytes| == Dlc(f)
  {
    seq(Dlc(f), k requires 0 <= k < Dlc(f) => f.data[if swap then Dlc(f) - 1 - k else k])
  }

  /** The first n bytes listed, each after its delimiter. */
  function Fields(bytes: seq<Byte>, n: nat, binary: bool, swap: bool): (s: string)
    requires n <= |bytes|
    ensures |s| == Columns(binary, n)
  {
    if n == 0 then ""
    else Fields(bytes, n - 1, binary, swap) + ([Delimiter(n - 1, swap)] + ByteText(bytes[n - 1], binary))
  }

  /** A byte as the ASCII view shows it. */
  function Glyph(b: Byte): char {
    if 0x1F < b < 0x7F then b as char else '.'
  }

  function Glyphs(bytes: seq<Byte>, n: nat): (s: string)
    requires n <= |bytes|
    ensures |s| == n
  {
    if n == 0 then "" else Glyphs(bytes, n - 1) + [Glyph(bytes[n - 1])]
  }

  lemma {:induction false} GlyphAt(bytes: seq<Byte>, n: nat, k: nat)
    requires k < n <= |bytes|
    ensures Glyphs(bytes, n)[k] == Glyph(bytes[k])
  {
    if k < n - 1 {
      GlyphAt(bytes, n - 1, k);
    }
  }

  function Quote(swap: bool): char {
    if swap then '`' else '\''
  }

  function ErrorMark(): (s: string)
    ensures |s| == 10
  {
    "ERRORFRAME"
  }

  /** What follows the listed bytes: the error mark, the quoted characters, or nothing. */
  function TailOf(id: CanId, bytes: seq<Byte>, view: View): string
    requires |bytes| <= 8
  {
    var room := Columns(view.binary, 8 - |bytes|);
    if Has(id, ERR_FLAG) then PadLeft(ErrorMark(), room + 13)
    else if view.ascii then PadLeft([Quote(view.swap)], room + 4) + Glyphs(bytes, |bytes|) + [Quote(view.swap)]
    else ""
  }

  function Tail(f: Frame, view: View): string
    requires FrameOk(f)
  {
    TailOf(f.canId, Order(f, view.swap), view)
  }

  function LongPrint(f: Frame, view: View): string
    requires FrameOk(f)
  {
    if Has(f.canId, RTR_FLAG) then Head(f) + " remote request"
    else Head(f) + Fields(Order(f, view.swap), Dlc(f), view.binary, view.swap) + Tail(f, view)
  }

  // ---------- columns ----------

  lemma IdFieldWidth(id: CanId)
    ensures |IdField(id)| + 3 == DataColumn(ClassOf(id))
  {
    EightDigits();
    Pow16Increases(3, 8);
    assert Pow16(3) == 16 * (16 * (16 * Pow16(0)));
    hide HexDigits, Pow16;
    if Has(id, ERR_FLAG) {
      HexDigitsFit(id % 0x4000_0000, 8);
    } else if Has(id, EFF_FLAG) {
      HexDigitsFit(id % 0x2000_0000, 8);
    } else {
      HexDigitsFit(id % 0x800, 3);
    }
  }

  /** Where the data would end with all eight bytes; it depends on the class and the view only. */
  function FullColumn(c: Class, view: View): int {
    DataColumn(c) + Columns(view.binary, 8)
  }

  /** The tail starts at a column that the length only moves by its own padding. */
  lemma TailIsAligned(f: Frame, view: View)
    requires FrameOk(f) && !Has(f.canId, RTR_FLAG)
    ensures var t, full, dlc := LongPrint(f, view), FullColumn(ClassOf(f.canId), view), Dlc(f);
            var bytes := Order(f, view.swap);
            && |t| <= LONGEST
            && (Has(f.canId, ERR_FLAG) ==> |t| == full + 13 && t[full + 3..] == ErrorMark())
            && (!Has(f.canId, ERR_FLAG) && view.ascii ==>
                  && |t| == full + 5 + dlc
                  && t[full + 3] == t[|t| - 1] == Quote(view.swap)
                  && t[full + 4..full + 4 + dlc] == Glyphs(bytes, dlc))
  {
    IdFieldWidth(f.canId);
    var head, dlc, swap := Head(f), Dlc(f), view.swap;
    var bytes := Order(f, swap);
    var fields, tail := Fields(bytes, dlc, view.binary, swap), Tail(f, view);
    var t, full := LongPrint(f, view), FullColumn(ClassOf(f.canId), view);
    var room := Columns(view.binary, 8 - dlc);
    assert t == head + fields + tail && |head + fields| == full - room;
    TailWindow(head + fields, f, view, room);
  }

  lemma TailWindow(before: string, f: Frame, view: View, room: int)
    requires FrameOk(f) && room == Columns(view.binary, 8 - Dlc(f)) && room >= 0
    ensures var t, at, dlc := before + Tail(f, view), |before| + room, Dlc(f);
            if Has(f.canId, ERR_FLAG) then |t| == at + 13 && t[at + 3..] == ErrorMark()
            else if view.ascii then
              && |t| == at + 5 + dlc && t[at + 3] == t[|t| - 1] == Quote(view.swap)
              && t[at + 4..at + 4 + dlc] == Glyphs(Order(f, view.swap), dlc)
            else t == before
  {
    hide Order, Glyphs, Columns, Has, Dlc, Spaces, ErrorMark, Quote;
    var swap := view.swap;
    var glyphs, q, spaces := Glyphs(Order(f, swap), Dlc(f)), Quote(swap), Spaces(room + 3);
    if Has(f.canId, ERR_FLAG) {
      assert Tail(f, view) == spaces + ErrorMark();
      AfterSpaces(before, spaces, ErrorMark());
    } else if view.ascii {
      assert Tail(f, view) == spaces + [q] + glyphs + [q];
      Quoted(before, spaces, q, glyphs);
    }
  }

  lemma AfterSpaces(before: string, spaces: string, mark: string)
    ensures var t := before + (spaces + mark);
            |t| == |before| + |spaces| + |mark| && t[|before| + |spaces|..] == mark
  {
  }

  lemma Quoted(before: string, spaces: string, q: char, glyphs: string)
    ensures var t, at := before + (spaces + [q] + glyphs + [q]), |before| + |spaces|;
            |t| == at + |glyphs| + 2 && t[at] == t[|t| - 1] == q && t[at + 1..at + 1 + |glyphs|] == glyphs
  {
  }

  /** Two frames of one class, of any lengths, keep their error marks and opening quotes in one column. */
  lemma ColumnsAgree(f: Frame, g: Frame, view: View)
    requires FrameOk(f) && FrameOk(g) && ClassOf(f.canId) == ClassOf(g.canId)
    requires !Has(f.canId, RTR_FLAG) && !Has(g.canId, RTR_FLAG)
    ensures var t, u, full := LongPrint(f, view), LongPrint(g, view), FullColumn(ClassOf(f.canId), view);
            && (ClassOf(f.canId) == ErrorFrame ==> |t| == |u| && t[full + 3..] == u[full + 3..] == ErrorMark())
            && (ClassOf(f.canId) != ErrorFrame && view.ascii ==>
                  |t| > full + 3 && |u| > full + 3 && t[full + 3] == u[full + 3] == Quote(view.swap))
  {
    hide LongPrint;
    TailIsAligned(f, view);
    TailIsAligned(g, view);
  }

  /** A remote request is short. */
  lemma RemoteRequestLength(f: Frame, view: View)
    requires FrameOk(f) && Has(f.canId, RTR_FLAG)
    ensures |LongPrint(f, view)| <= 28
  {
    IdFieldWidth(f.canId);
  }

  // ---------- the swapped view ----------

  lemma {:induction false} FieldAt(bytes: seq<Byte>, n: nat, k: nat, binary: bool, swap: bool)
    requires k < n <= |bytes|
    ensures Fields(bytes, n, binary, swap)[Columns(binary, k)..Columns(binary, k + 1)]
            == [Delimiter(k, swap)] + ByteText(bytes[k], binary)
    decreases n
  {
    hide ByteText;
    var shorter, last := Fields(bytes, n - 1, binary, swap), [Delimiter(n - 1, swap)] + ByteText(bytes[n - 1], binary);
    assert Fields(bytes, n, binary, swap) == shorter + last;
    hide Fields, Delimiter;
    if k < n - 1 {
      FieldAt(bytes, n - 1, k, binary, swap);
      SliceOfPrefix(shorter, last, Columns(binary, k), Columns(binary, k + 1));
    } else {
      SliceOfSuffix(shorter, last);
    }
  }

  lemma SliceOfSuffix(a: string, b: string)
    ensures (a + b)[|a|..|a| + |b|] == b
  {
  }

  lemma SliceOfPrefix(a: string, b: string, i: nat, j: nat)
    requires i <= j <= |a|
    ensures (a + b)[i..j] == a[i..j]
  {
  }

  lemma SliceInside(a: string, b: string, c: string, i: nat, j: nat)
    requires i <= j <= |b|
    ensures (a + b + c)[|a| + i..|a| + j] == b[i..j]
  {
  }

  /** The columns of the k-th byte listed: its delimiter, then the byte the view lists there. */
  lemma ByteColumns(f: Frame, view: View, k: nat)
    requires FrameOk(f) && !Has(f.canId, RTR_FLAG) && k < Dlc(f)
    ensures var t, from := LongPrint(f, view), DataColumn(ClassOf(f.canId));
            var binary, swap := view.binary, view.swap;
            && from + Columns(binary, k + 1) <= |t|
            && t[from + Columns(binary, k)..from + Columns(binary, k + 1)]
               == [Delimiter(k, swap)] + ByteText(f.data[if swap then Dlc(f) - 1 - k else k], binary)
  {
    hide Fields, Tail, Head, ByteText, ClassOf, Has, DataColumn;
    var binary, swap := view.binary, view.swap;
    var bytes, dlc := Order(f, swap), Dlc(f);
    var fields := Fields(bytes, dlc, binary, swap);
    assert bytes[k] == f.data[if swap then dlc - 1 - k else k];
    PrintSplits(f, view);
    hide LongPrint, Fields, Tail, Head, Order, ByteText, ClassOf, Has, DataColumn, Dlc;
    FieldAt(bytes, dlc, k, binary, swap);
    var i, j := Columns(binary, k), Columns(binary, k + 1);
    SliceInside(Head(f), fields, Tail(f, view), i, j);
  }

  lemma PrintSplits(f: Frame, view: View)
    requires FrameOk(f) && !Has(f.canId, RTR_FLAG)
    ensures |Head(f)| == DataColumn(ClassOf(f.canId))
    ensures LongPrint(f, view)
            == Head(f) + Fields(Order(f, view.swap), Dlc(f), view.binary, view.swap) + Tail(f, view)
  {
    IdFieldWidth(f.canId);
  }

  /** Where byte k of a view stands, without its delimiter. */
  function Cell(f: Frame, view: View, k: nat): string
    requires FrameOk(f) && !Has(f.canId, RTR_FLAG) && k < Dlc(f)
  {
    ByteColumns(f, view, k);
    var from := DataColumn(ClassOf(f.canId));
    LongPrint(f, view)[from + Columns(view.binary, k) + 1..from + Columns(view.binary, k + 1)]
  }

  lemma CellIs(f: Frame, view: View, k: nat)
    requires FrameOk(f) && !Has(f.canId, RTR_FLAG) && k < Dlc(f)
    ensures Cell(f, view, k) == ByteText(f.data[if view.swap then Dlc(f) - 1 - k else k], view.binary)
  {
    hide LongPrint, ByteText, ClassOf, Has, DataColumn, Dlc;
    ByteColumns(f, view, k);
    var t, from := LongPrint(f, view), DataColumn(ClassOf(f.canId)) + Columns(view.binary, k);
    var to := DataColumn(ClassOf(f.canId)) + Columns(view.binary, k + 1);
    assert t[from + 1..to] == t[from..to][1..];
  }

  /** The swapped view lists the same bytes, and the same characters, in reverse. */
  lemma SwappedViewMirrors(f: Frame, plain: View, swapped: View, k: nat)
    requires FrameOk(f) && !Has(f.canId, RTR_FLAG) && k < Dlc(f)
    requires !plain.swap && swapped.swap
    requires plain.binary == swapped.binary && plain.ascii == swapped.ascii
    ensures |LongPrint(f, plain)| == |LongPrint(f, swapped)|
    ensures Cell(f, swapped, k) == Cell(f, plain, Dlc(f) - 1 - k)
    ensures ClassOf(f.canId) != ErrorFrame && plain.ascii ==>
              var t, u, quote := LongPrint(f, plain), LongPrint(f, swapped), FullColumn(ClassOf(f.canId), plain) + 3;
              |t| > quote + Dlc(f) && u[quote + 1 + k] == t[quote + Dlc(f) - k]
  {
    CellIs(f, swapped, k);
    CellIs(f, plain, Dlc(f) - 1 - k);
    SameLength(f, plain, swapped);
    hide LongPrint, Cell, ByteText, FullColumn, Dlc;
    if ClassOf(f.canId) != ErrorFrame && plain.ascii {
      SwappedGlyph(f, plain, swapped, k);
    }
  }

  lemma SwappedGlyph(f: Frame, plain: View, swapped: View, k: nat)
    requires FrameOk(f) && !Has(f.canId, RTR_FLAG) && k < Dlc(f) && ClassOf(f.canId) != ErrorFrame
    requires !plain.swap && swapped.swap
    requires plain.binary == swapped.binary && plain.ascii && swapped.ascii
    ensures var t, u, quote := LongPrint(f, plain), LongPrint(f, swapped), FullColumn(ClassOf(f.canId), plain) + 3;
            |t| == |u| > quote + Dlc(f) && u[quote + 1 + k] == t[quote + Dlc(f) - k]
  {
    hide LongPrint, Order, Glyphs, Has, Dlc;
    TailIsAligned(f, plain);
    TailIsAligned(f, swapped);
    var t, u, from := LongPrint(f, plain), LongPrint(f, swapped), FullColumn(ClassOf(f.canId), plain) + 4;
    OrderMirrors(f, k);
    MirroredGlyph(t, u, from, Order(f, false), Order(f, true), k);
  }

  lemma OrderMirrors(f: Frame, k: nat)
    requires FrameOk(f) && k < Dlc(f)
    ensures Order(f, true)[k] == Order(f, false)[Dlc(f) - 1 - k]
  {
  }

  lemma MirroredGlyph(t: string, u: string, from: nat, there: seq<Byte>, back: seq<Byte>, k: nat)
    requires k < |there| == |back| && back[k] == there[|there| - 1 - k] && from + |there| <= |t| && from + |there| <= |u|
    requires t[from..from + |there|] == Glyphs(there, |there|) && u[from..from + |there|] == Glyphs(back, |there|)
    ensures u[from + k] == t[from + (|there| - 1 - k)]
  {
    GlyphAt(back, |there|, k);
    GlyphAt(there, |there|, |there| - 1 - k);
    hide Glyphs;
    assert u[from..from + |there|][k] == u[from + k];
    assert t[from..from + |there|][|there| - 1 - k] == t[from + (|there| - 1 - k)];
  }

  lemma SameLength(f: Frame, plain: View, swapped: View)
    requires FrameOk(f) && !Has(f.canId, RTR_FLAG)
    requires plain.binary == swapped.binary && plain.ascii == swapped.ascii
    ensures |LongPrint(f, plain)| == |LongPrint(f, swapped)|
  {
  }

  // ---------- the printer ----------

  /** One character, without a NUL after it. */
  method PutChar(buf: array<char>, offset: nat, c: char) returns (offset': nat)
    requires offset < buf.Length
    modifies buf
    ensures offset' == offset + 1 && buf[..offset'] == old(buf[..offset]) + [c]
  {
    buf[offset] := c;
    offset' := offset + 1;
  }

  /** The eight bits of a byte, the highest first. */
  method PutBits(buf: array<char>, offset: nat, b: Byte) returns (offset': nat)
    requires offset + 8 <= buf.Length
    modifies buf
    ensures offset' == offset + 8 && buf[..offset'] == old(buf[..offset]) + Bits(b, 8)
  {
    offset' := offset;
    var j := 7;
    while j >= 0
      invariant -1 <= j <= 7 && offset' == offset + 7 - j
      invariant buf[..offset'] == old(buf[..offset]) + Bits(b, 7 - j)
    {
      offset' := PutChar(buf, offset', if Bit(b, j) then '1' else '0');
      j := j - 1;
    }
  }

  method SprintField(buf: array<char>, start: nat, delimiter: char, b: Byte, binary: bool) returns (offset: nat)
    requires start + Columns(binary, 1) < buf.Length
    modifies buf
    ensures offset == start + Columns(binary, 1)
    ensures buf[..offset] == old(buf[..start]) + ([delimiter] + ByteText(b, binary))
  {
    hide Bits, Hex2;
    offset := start;
    if binary {
      offset := PutChar(buf, offset, delimiter);
      offset := PutBits(buf, offset, b);
    } else {
      Put(buf, offset, [delimiter] + Hex2(b));
      offset := offset + 3;
    }
  }

  /** bytes are the frame's, in the order a view lists them. */
  ghost predicate Lists(cf: CanFrame, bytes: seq<Byte>, swap: bool)
    reads cf.data
  {
    |bytes| <= 8 == cf.data.Length
    && forall k :: 0 <= k < |bytes| ==> bytes[k] == cf.data[if swap then |bytes| - 1 - k else k]
  }

  /** The data columns, listed from the first byte up or from the last one down, and the NUL after them. */
  method SprintFields(buf: array<char>, start: nat, cf: CanFrame, dlc: nat, binary: bool, swap: bool, ghost bytes: seq<Byte>)
    returns (offset: nat)
    requires Lists(cf, bytes, swap) && dlc == |bytes| <= 8 && start + Columns(binary, 8) < buf.Length
    modifies buf
    ensures offset == start + Columns(binary, dlc) && buf[offset] == NUL
    ensures buf[..offset] == old(buf[..start]) + Fields(bytes, dlc, binary, swap)
  {
    hide ByteText, Fields, Lists;
    offset := start;
    var k := 0;
    FieldsNext(buf[..start], bytes, 0, binary, swap);
    while k < dlc
      invariant 0 <= k <= dlc && offset == start + Columns(binary, k)
      invariant buf[..offset] == old(buf[..start]) + Fields(bytes, k, binary, swap)
    {
      var i := if swap then dlc - 1 - k else k;
      var delimiter := if !swap || i == dlc - 1 then ' ' else '`';
      ListedByte(cf, bytes, swap, k);
      FieldsNext(old(buf[..start]), bytes, k, binary, swap);
      offset := SprintField(buf, offset, delimiter, cf.data[i], binary);
      k := k + 1;
    }
    Terminate(buf, offset);
  }

  lemma ListedByte(cf: CanFrame, bytes: seq<Byte>, swap: bool, k: nat)
    requires Lists(cf, bytes, swap) && k < |bytes|
    ensures |bytes| <= 8 == cf.data.Length && bytes[k] == cf.data[if swap then |bytes| - 1 - k else k]
  {
  }

  lemma FieldsNext(before: string, bytes: seq<Byte>, k: nat, binary: bool, swap: bool)
    requires k <= |bytes|
    ensures k == 0 ==> before + Fields(bytes, 0, binary, swap) == before
    ensures k < |bytes| ==> before + Fields(bytes, k + 1, binary, swap)
                            == before + Fields(bytes, k, binary, swap) + ([Delimiter(k, swap)] + ByteText(bytes[k], binary))
  {
    hide ByteText, Delimiter;
  }

  method Terminate(buf: array<char>, offset: nat)
    requires offset < buf.Length
    modifies buf
    ensures buf[..offset] == old(buf[..offset]) && buf[offset] == NUL
  {
    buf[offset] := NUL;
  }

  method SprintGlyphs(buf: array<char>, start: nat, cf: CanFrame, dlc: nat, swap: bool, ghost bytes: seq<Byte>)
    returns (offset: nat)
    requires Lists(cf, bytes, swap) && dlc == |bytes| && start + dlc <= buf.Length
    modifies buf
    ensures offset == start + dlc
    ensures buf[..offset] == old(buf[..start]) + Glyphs(bytes, dlc)
  {
    offset := start;
    var k := 0;
    while k < dlc
      invariant 0 <= k <= dlc && offset == start + k
      invariant buf[..offset] == old(buf[..start]) + Glyphs(bytes, k)
    {
      var i := if swap then dlc - 1 - k else k;
      assert bytes[k] == cf.data[i];
      offset := PutChar(buf, offset, if cf.data[i] > 0x1F && cf.data[i] < 0x7F then cf.data[i] as char else '.');
      k := k + 1;
    }
  }

  method SprintLongId(buf: array<char>, id: CanId) returns (offset: nat)
    requires LONGEST < buf.Length
    modifies buf
    ensures offset == |IdField(id)| == DataColumn(ClassOf(id)) - 3 && buf[..offset] == IdField(id)
  {
    IdFieldWidth(id);
    hide HexDigits;
    if Has(id, ERR_FLAG) {
      Put(buf, 0, PadLeft(HexDigits(id % 0x4000_0000), 8) + "  ");
      offset := 10;
    } else if Has(id, EFF_FLAG) {
      Put(buf, 0, PadLeft(HexDigits(id % 0x2000_0000), 8) + "  ");
      offset := 10;
    } else {
      Put(buf, 0, PadLeft(HexDigits(id % 0x800), 3) + "  ");
      offset := 5;
    }
  }

  lemma ViewIs(flags: int)
    ensures ViewOf(flags) == View(flags % 2 == 1, flags / 2 % 2 == 1, flags / 4 % 2 == 1)
  {
  }

  /** Prints the long form; at most 98 characters and a NUL are written. */
  method SprintLongCanframe(buf: array<char>, cf: CanFrame, flags: int)
    requires cf.Valid() && LONGEST < buf.Length
    modifies buf
    ensures var t := LongPrint(cf.View(), View(flags % 2 == 1, flags / 2 % 2 == 1, flags / 4 % 2 == 1));
            |t| <= LONGEST && buf[..|t|] == t && buf[|t|] == NUL
  {
    ViewIs(flags);
    hide ViewOf, LongPrint;
    SprintView(buf, cf, ViewOf(flags));
  }

  /** The id and the length in brackets. */
  method SprintHead(buf: array<char>, cf: CanFrame, dlc: nat) returns (offset: nat)
    requires cf.Valid() && LONGEST < buf.Length && dlc == Dlc(cf.View())
    modifies buf
    ensures offset == DataColumn(ClassOf(cf.canId)) == |Head(cf.View())| && buf[..offset] == Head(cf.View())
  {
    hide IdField;
    offset := SprintLongId(buf, cf.canId);
    Put(buf, offset, ['[', '0' + dlc as char, ']']);
    offset := offset + 3;
  }

  method SprintView(buf: array<char>, cf: CanFrame, view: View)
    requires cf.Valid() && LONGEST < buf.Length
    modifies buf
    ensures var t := LongPrint(cf.View(), view); |t| <= LONGEST && buf[..|t|] == t && buf[|t|] == NUL
  {
    ghost var f := cf.View();
    hide IdField, Fields, TailOf, Head;
    var dlc := if cf.canDlc > 8 then 8 else cf.canDlc;
    var offset := SprintHead(buf, cf, dlc);
    if Has(cf.canId, RTR_FLAG) {
      Put(buf, offset, " remote request");
      RemoteRequestLength(f, view);
    } else {
      SprintRest(buf, offset, cf, dlc, view);
    }
  }

  /** Everything behind the head of a data or error frame. */
  method SprintRest(buf: array<char>, start: nat, cf: CanFrame, dlc: nat, view: View)
    requires cf.Valid() && LONGEST < buf.Length && dlc == Dlc(cf.View()) && !Has(cf.canId, RTR_FLAG)
    requires start == DataColumn(ClassOf(cf.canId)) == |Head(cf.View())| && buf[..start] == Head(cf.View())
    modifies buf
    ensures var t := LongPrint(cf.View(), view); |t| <= LONGEST && buf[..|t|] == t && buf[|t|] == NUL
  {
    ghost var f := cf.View();
    ghost var bytes := Order(f, view.swap);
    assert Lists(cf, bytes, view.swap);
    PrintSplits(f, view);
    TailIsAligned(f, view);
    hide LongPrint, Order, Lists, Head, Fields, TailOf, Has;
    SprintData(buf, start, cf, dlc, view, bytes, LongPrint(f, view));
    assert cf.View() == f;
  }

  /** The data columns and what follows them. */
  method SprintData(buf: array<char>, start: nat, cf: CanFrame, dlc: nat, view: View, ghost bytes: seq<Byte>, ghost text: string)
    requires Lists(cf, bytes, view.swap) && dlc == |bytes| <= 8 && start <= 13 && |text| <= LONGEST < buf.Length
    requires text == buf[..start] + Fields(bytes, dlc, view.binary, view.swap) + TailOf(cf.canId, bytes, view)
    modifies buf
    ensures buf[..|text|] == text && buf[|text|] == NUL
  {
    hide Fields, TailOf, Lists;
    var offset := SprintFields(buf, start, cf, dlc, view.binary, view.swap, bytes);
    SprintTail(buf, offset, cf, dlc, view, bytes);
  }

  /** The error mark or the quoted characters, padded to the width the missing bytes would take. */
  method SprintTail(buf: array<char>, start: nat, cf: CanFrame, dlc: nat, view: View, ghost bytes: seq<Byte>)
    requires Lists(cf, bytes, view.swap) && dlc == |bytes| <= 8
    requires start + |TailOf(cf.canId, bytes, view)| < buf.Length && buf[start] == NUL
    modifies buf
    ensures var tail := TailOf(cf.canId, bytes, view);
            buf[..start + |tail|] == old(buf[..start]) + tail && buf[start + |tail|] == NUL
  {
    hide Glyphs, Has, Spaces, ErrorMark, Quote, Lists, TailOf, PadLeft;
    var room := Columns(view.binary, 8 - dlc);
    TailParts(cf.canId, bytes, view, room);
    if Has(cf.canId, ERR_FLAG) {
      Put(buf, start, PadLeft(ErrorMark(), room + 13));
    } else if view.ascii {
      SprintQuoted(buf, start, cf, dlc, room + 4, view.swap, bytes);
    }
  }

  lemma TailParts(id: CanId, bytes: seq<Byte>, view: View, room: int)
    requires |bytes| <= 8 && room == Columns(view.binary, 8 - |bytes|)
    ensures TailOf(id, bytes, view) ==
            if Has(id, ERR_FLAG) then PadLeft(ErrorMark(), room + 13)
            else if view.ascii then PadLeft([Quote(view.swap)], room + 4) + Glyphs(bytes, |bytes|) + [Quote(view.swap)]
            else ""
    ensures |PadLeft(ErrorMark(), room + 13)| == room + 13 && |PadLeft([Quote(view.swap)], room + 4)| == room + 4
  {
  }

  method SprintQuoted(buf: array<char>, start: nat, cf: CanFrame, dlc: nat, j: nat, swap: bool, ghost bytes: seq<Byte>)
    requires Lists(cf, bytes, swap) && dlc == |bytes| && 1 < j && start + j + dlc + 1 < buf.Length
    modifies buf
    ensures var end := start + j + dlc + 1;
            && buf[..end] == old(buf[..start]) + (PadLeft([Quote(swap)], j) + Glyphs(bytes, dlc) + [Quote(swap)])
            && buf[end] == NUL
  {
    var offset := start;
    var q := [Quote(swap)];
    assert |PadLeft(q, j)| == j;
    hide Glyphs, Quote, PadLeft;
    Put(buf, offset, PadLeft(q, j));
    offset := offset + j;
    offset := SprintGlyphs(buf, offset, cf, dlc, swap, bytes);
    Put(buf, offset, q);
  }
}
