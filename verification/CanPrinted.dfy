/** What is printed where: the compact and the long text of a frame, column by column. */
module CanPrinted {
  import opened Machine
  import opened CanText
  import opened CanDigits
  import opened CanLong

  ghost predicate AllUpper(s: string) {
    forall i :: 0 <= i < |s| ==> s[i] in UPPER
  }

  /** Upper-case digits that write v. */
  ghost predicate Writes(s: string, v: int) {
    AllUpper(s) && AllHex(s, |s|) && HexValue(s, |s|) == v
  }

  /** They stand from a to b. */
  ghost predicate DigitsStand(t: string, a: nat, b: nat, v: int) {
    a <= b <= |t| && Writes(t[a..b], v)
  }

  /** The part of an id that is printed. */
  function Shown(id: CanId): int {
    if id / 0x2000_0000 % 2 == 1 then id % 0x4000_0000 else if id / 0x8000_0000 % 2 == 1 then id % 0x2000_0000 else id % 0x800
  }

  /** Three digits for a standard frame, eight for the others. */
  function Width(id: CanId): nat {
    if id / 0x2000_0000 % 2 == 1 || id / 0x8000_0000 % 2 == 1 then 8 else 3
  }

  predicate IsRemote(id: CanId) {
    id / 0x4000_0000 % 2 == 1
  }

  // ---------- the compact text ----------

  lemma {:induction false} HexIsUpper(v: nat, w: nat)
    ensures forall i :: 0 <= i < w ==> Hex(v, w)[i] in UPPER
  {
    if w > 0 {
      HexIsUpper(v / 16, w - 1);
      PrintedDigit(v % 16);
      assert UPPER[v % 16] in UPPER;
    }
  }

  lemma HexStands(v: nat, w: nat)
    requires v < Pow16(w)
    ensures DigitsStand(Hex(v, w), 0, w, v)
  {
    HexIsUpper(v, w);
    HexRoundTrip(v, w);
    assert Hex(v, w)[0..w] == Hex(v, w);
  }

  lemma PrintedId(id: CanId)
    ensures |PrintId(id)| == Width(id) && DigitsStand(PrintId(id), 0, Width(id), Shown(id))
  {
    assert Pow16(3) == 16 * (16 * (16 * Pow16(0)));
    assert Pow16(4) == 16 * Pow16(3) && Pow16(8) == 16 * (16 * (16 * (16 * Pow16(4))));
    HexStands(Shown(id), Width(id));
    hide Hex, Pow16, DigitsStand;
  }

  ghost predicate ByteStands(t: string, at: int, b: Byte) {
    0 <= at && at + 2 <= |t| && t[at] == UPPER[b / 16] && t[at + 1] == UPPER[b % 16]
  }

  /** Where byte k is printed, counted from the first; with dots each takes one more place. */
  function Place(sep: bool, k: int): int {
    if sep then 3 * k else 2 * k
  }

  lemma FirstByte(b: Byte, rest: string, dot: bool)
    ensures var t := (if dot then "." else "") + (Hex2(b) + rest);
            ByteStands(t, if dot then 1 else 0, b) && |t| == |rest| + (if dot then 3 else 2) && (dot ==> t[0] == '.')
  {
    PrintedDigit(b / 16);
    PrintedDigit(b % 16);
    hide UPPER;
  }

  lemma LaterByte(b: Byte, rest: string, dot: bool, at: int, c: Byte)
    requires ByteStands(rest, at, c)
    ensures var t, n := (if dot then "." else "") + (Hex2(b) + rest), if dot then 3 else 2;
            ByteStands(t, n + at, c) && (at > 0 ==> t[n + at - 1] == rest[at - 1])
  {
    hide UPPER;
  }

  lemma {:induction false} BytesLength(data: seq<Byte>, i: nat, n: nat, sep: bool, dot: bool)
    requires i < n <= |data|
    ensures |PrintBytes(data, i, n, sep, dot)| == (if dot then 1 else 0) + Place(sep, n - i) - (if sep then 1 else 0)
    decreases n - i
  {
    FirstOf(data, i, n, sep, dot);
    hide PrintBytes, Hex2;
    if i + 1 < n {
      BytesLength(data, i + 1, n, sep, sep);
    }
  }

  /** Byte k stands at its place behind a leading dot, with a dot before it. */
  ghost predicate ByteAndDot(t: string, sep: bool, dot: bool, k: nat, b: Byte) {
    var at := (if dot then 1 else 0) + Place(sep, k);
    ByteStands(t, at, b) && ((if k > 0 then sep else dot) ==> at > 0 && t[at - 1] == '.')
  }

  lemma AddByte(b: Byte, rest: string, sep: bool, dot: bool, k: nat, c: Byte)
    requires ByteAndDot(rest, sep, sep, k, c)
    ensures ByteAndDot((if dot then "." else "") + (Hex2(b) + rest), sep, dot, k + 1, c)
  {
    var at := (if sep then 1 else 0) + Place(sep, k);
    LaterByte(b, rest, dot, at, c);
    hide ByteStands, Hex2;
  }

  lemma {:induction false} BytesStand(data: seq<Byte>, i: nat, n: nat, sep: bool, dot: bool, k: nat)
    requires i + k < n <= |data|
    ensures ByteAndDot(PrintBytes(data, i, n, sep, dot), sep, dot, k, data[i + k])
    decreases n - i
  {
    FirstOf(data, i, n, sep, dot);
    hide ByteStands, Hex2, PrintBytes;
    if k > 0 {
      BytesStand(data, i + 1, n, sep, sep, k - 1);
      hide ByteAndDot;
      AddByte(data[i], PrintBytes(data, i + 1, n, sep, sep), sep, dot, k - 1, data[i + k]);
    } else {
      FirstByte(data[i], PrintBytes(data, i + 1, n, sep, sep), dot);
    }
  }

  lemma FirstOf(data: seq<Byte>, i: nat, n: nat, sep: bool, dot: bool)
    requires i < n <= |data|
    ensures PrintBytes(data, i, n, sep, dot) == (if dot then "." else "") + (Hex2(data[i]) + PrintBytes(data, i + 1, n, sep, sep))
    ensures i + 1 == n ==> PrintBytes(data, i + 1, n, sep, sep) == ""
  {
  }

  /** What stands behind the '#': an R, or the bytes, with dots between them just when they are asked for. */
  ghost predicate RestStands(t: string, f: Frame, sep: bool, k: nat)
    requires FrameOk(f)
  {
    var n := if f.dlc > 8 then 8 else f.dlc;
    if IsRemote(f.canId) then t == "R"
    else
      && |t| == (if n == 0 then 0 else Place(sep, n) - if sep then 1 else 0)
      && (k < n ==> ByteStands(t, Place(sep, k), f.data[k]) && (sep && k > 0 ==> t[3 * k - 1] == '.'))
  }

  /** The compact text: the id in upper-case digits, '#', and that. */
  lemma PrintIs(f: Frame, sep: bool, k: nat)
    requires FrameOk(f)
    ensures var t, w := Print(f, sep), Width(f.canId);
            w < |t| && DigitsStand(t, 0, w, Shown(f.canId)) && t[w] == '#' && RestStands(t[w + 1..], f, sep, k)
  {
    var id, rest := PrintId(f.canId), PrintRest(f, sep);
    PrintedId(f.canId);
    PrintParts(f, sep);
    RestIs(f, sep, k);
    hide Print, PrintId, PrintRest, DigitsStand, RestStands;
    Behind(id, rest, Shown(f.canId));
  }

  lemma RestIs(f: Frame, sep: bool, k: nat)
    requires FrameOk(f)
    ensures RestStands(PrintRest(f, sep), f, sep, k)
  {
    var n := Dlc(f);
    RemoteIs(f.canId);
    hide ByteStands, IsRemote, Has, PrintBytes;
    if n > 0 {
      BytesLength(f.data, 0, n, sep, false);
    } else {
      NoBytes(f.data, sep);
    }
    if k < n {
      BytesStand(f.data, 0, n, sep, false, k);
    }
  }

  lemma NoBytes(data: seq<Byte>, sep: bool)
    ensures PrintBytes(data, 0, 0, sep, false) == ""
  {
  }

  lemma RemoteIs(id: CanId)
    ensures IsRemote(id) <==> Has(id, RTR_FLAG)
  {
  }

  lemma Behind(id: string, rest: string, v: int)
    requires DigitsStand(id, 0, |id|, v)
    ensures var t := id + ("#" + rest);
            DigitsStand(t, 0, |id|, v) && t[|id|] == '#' && t[|id| + 1..] == rest
  {
    var t := id + ("#" + rest);
    assert t[0..|id|] == id == id[0..|id|];
  }

  // ---------- the long text ----------

  lemma {:induction false} DigitsAreUpper(v: nat)
    ensures AllUpper(HexDigits(v)) && (HexDigits(v)[0] == '0' ==> |HexDigits(v)| == 1)
  {
    PrintedDigit(v % 16);
    assert UPPER[v % 16] in UPPER;
    if v >= 16 {
      DigitsAreUpper(v / 16);
      NotZero(v / 16);
    }
  }

  lemma {:induction false} NotZero(v: nat)
    requires v > 0
    ensures HexDigits(v)[0] != '0'
  {
    if v >= 16 {
      NotZero(v / 16);
    }
  }

  /** v in upper-case digits without leading zeros, moved to the right of w places. */
  ghost predicate RightAligned(t: string, w: nat, v: int) {
    && 0 < w <= |t|
    && exists k {:trigger DigitsStand(t, k, w, v)} ::
         0 <= k < w && (forall i :: 0 <= i < k ==> t[i] == ' ') && DigitsStand(t, k, w, v) && (t[k] == '0' ==> k == w - 1)
  }

  lemma HexWrites(v: nat)
    ensures Writes(HexDigits(v), v) && (HexDigits(v)[0] == '0' ==> |HexDigits(v)| == 1)
  {
    DigitsAreUpper(v);
    HexDigitsAreRead(v);
    hide HexDigits, AllUpper, AllHex, HexValue;
  }

  lemma {:induction false} HexIsAligned(t: string, v: nat, w: nat, digits: string)
    requires |digits| <= w <= |t| && digits == HexDigits(v) && forall i :: 0 <= i < w - |digits| ==> t[i] == ' '
    requires forall i :: w - |digits| <= i < w ==> t[i] == digits[i - (w - |digits|)]
    ensures RightAligned(t, w, v)
  {
    hide HexDigits, Writes, RightAligned;
    HexWrites(v);
    Aligned(t, digits, v, w, w - |digits|);
  }

  lemma {:induction false} Aligned(t: string, digits: string, v: nat, w: nat, k: nat)
    requires 1 <= |digits| && k + |digits| == w <= |t| && Writes(digits, v) && (digits[0] == '0' ==> |digits| == 1)
    requires (forall i :: 0 <= i < k ==> t[i] == ' ') && forall i :: k <= i < w ==> t[i] == digits[i - k]
    ensures RightAligned(t, w, v)
  {
    hide Writes;
    assert t[k..w] == digits;
    assert DigitsStand(t, k, w, v);
  }

  lemma {:induction false} Padded(t: string, digits: string, w: nat, tail: string)
    requires |digits| <= w && t == PadLeft(digits, w) + tail
    ensures |PadLeft(digits, w)| == w <= |t| && (forall i :: 0 <= i < w - |digits| ==> t[i] == ' ')
    ensures forall i :: w - |digits| <= i < w ==> t[i] == digits[i - (w - |digits|)]
  {
  }

  /** The head of the long text: the id to the right of its places, two spaces, and the length in brackets. */
  lemma HeadIs(f: Frame)
    ensures var t, w := Head(f), Width(f.canId);
            && |t| == w + 5 && RightAligned(t, w, Shown(f.canId))
            && t[w..] == [' ', ' ', '[', '0' + (if f.dlc > 8 then 8 else f.dlc) as char, ']']
  {
    var id, w := f.canId, Width(f.canId);
    var tail := [' ', ' ', '[', '0' + Dlc(f) as char, ']'];
    assert Pow16(3) == 16 * (16 * (16 * Pow16(0)));
    assert Pow16(4) == 16 * Pow16(3) && Pow16(8) == 16 * (16 * (16 * (16 * Pow16(4))));
    HeadParts(f);
    HexDigitsFit(Shown(id), w);
    hide HexDigits, Pow16, RightAligned, Head;
    Padded(Head(f), HexDigits(Shown(id)), w, tail);
    hide PadLeft;
    HexIsAligned(Head(f), Shown(id), w, HexDigits(Shown(id)));
    assert (PadLeft(HexDigits(Shown(id)), w) + tail)[w..] == tail;
  }

  lemma HeadParts(f: Frame)
    ensures Head(f) == PadLeft(HexDigits(Shown(f.canId)), Width(f.canId)) + [' ', ' ', '[', '0' + Dlc(f) as char, ']']
  {
    hide PadLeft, HexDigits;
    assert IdField(f.canId) == PadLeft(HexDigits(Shown(f.canId)), Width(f.canId)) + "  ";
  }

  /** A remote request says so behind its head. */
  lemma RemoteTextIs(f: Frame, view: View)
    requires FrameOk(f) && IsRemote(f.canId)
    ensures LongPrint(f, view) == Head(f) + " remote request"
  {
    RemoteIs(f.canId);
  }

  lemma {:induction false} BitsStand(b: Byte, n: nat, j: nat)
    requires j < n <= 8
    ensures CanLong.Bits(b, n)[j] == if Bit(b, 7 - j) then '1' else '0'
  {
    if j < n - 1 {
      BitsStand(b, n - 1, j);
    }
  }

  /** Where the bytes printed end, and where eight of them would. */
  function BytesEnd(f: Frame, view: View, n: nat): nat {
    Width(f.canId) + 5 + if view.binary then 9 * n else 3 * n
  }

  /** A byte in its column: a space or a '`', then eight bits or two upper-case digits. */
  ghost predicate CellStands(t: string, at: nat, b: Byte, binary: bool, delimiter: char) {
    && at + (if binary then 9 else 3) <= |t| && t[at] == delimiter
    && (binary ==> forall i :: at < i < at + 9 ==> t[i] == if Bit(b, at + 8 - i) then '1' else '0')
    && (!binary ==> t[at + 1] == UPPER[b / 16] && t[at + 2] == UPPER[b % 16])
  }

  lemma CellIs(t: string, at: nat, b: Byte, binary: bool, delimiter: char)
    requires at + Columns(binary, 1) <= |t| && t[at..at + Columns(binary, 1)] == [delimiter] + ByteText(b, binary)
    ensures CellStands(t, at, b, binary, delimiter)
  {
    var cell, text := t[at..at + Columns(binary, 1)], ByteText(b, binary);
    assert cell[0] == t[at];
    if binary {
      forall i | at < i < at + 9
        ensures t[i] == if Bit(b, at + 8 - i) then '1' else '0'
      {
        BitsStand(b, 8, i - at - 1);
        assert t[i] == cell[i - at] == text[i - at - 1];
      }
    } else {
      PrintedDigit(b / 16);
      PrintedDigit(b % 16);
      hide UPPER;
      assert t[at + 1] == cell[1] == text[0] && t[at + 2] == cell[2] == text[1];
    }
  }

  /** Byte k behind the head, the swapped view listing from the last byte on. */
  lemma LongByteIs(f: Frame, view: View, k: nat, dlc: nat, b: Byte)
    requires FrameOk(f) && !IsRemote(f.canId) && dlc == Dlc(f) && k < dlc
    requires b == f.data[if view.swap then dlc - 1 - k else k]
    ensures CellStands(LongPrint(f, view), BytesEnd(f, view, k), b, view.binary, if view.swap && k > 0 then '`' else ' ')
  {
    RemoteIs(f.canId);
    ByteColumns(f, view, k);
    ColumnIs(f.canId);
    hide LongPrint, ByteText, Bit, UPPER, Width, IsRemote, Has, ClassOf, DataColumn, CellStands;
    CellIs(LongPrint(f, view), BytesEnd(f, view, k), b, view.binary, Delimiter(k, view.swap));
  }

  lemma ColumnIs(id: CanId)
    ensures DataColumn(ClassOf(id)) == Width(id) + 5
  {
  }

  ghost predicate Blank(t: string, a: int, b: int) {
    0 <= a && b <= |t| && forall i :: a <= i < b ==> t[i] == ' '
  }

  ghost predicate IsError(id: CanId) {
    id / 0x2000_0000 % 2 == 1
  }

  /** What ends the text of an error frame, at the column where eight bytes would end. */
  lemma ErrorTailIs(f: Frame, view: View)
    requires FrameOk(f) && !IsRemote(f.canId) && IsError(f.canId)
    ensures var t, full := LongPrint(f, view), BytesEnd(f, view, 8);
            |t| == full + 13 && t[full + 3..] == "ERRORFRAME" && Blank(t, BytesEnd(f, view, Dlc(f)), full + 3)
  {
    RemoteIs(f.canId);
    ColumnIs(f.canId);
    TailIsAligned(f, view);
    TailSpaces(f, view);
    assert Has(f.canId, ERR_FLAG);
    hide LongPrint, Width, IsRemote, Has;
  }

  /** Without the ASCII view the text of another frame ends with its bytes. */
  lemma PlainTailIs(f: Frame, view: View)
    requires FrameOk(f) && !IsRemote(f.canId) && !IsError(f.canId) && !view.ascii
    ensures |LongPrint(f, view)| == BytesEnd(f, view, if f.dlc > 8 then 8 else f.dlc)
  {
    RemoteIs(f.canId);
    TailSpaces(f, view);
    assert !Has(f.canId, ERR_FLAG);
    hide LongPrint, Width, IsRemote, Has;
  }

  /** With it there are characters between quotes. */
  lemma QuotedTailIs(f: Frame, view: View, dlc: nat, q: char)
    requires FrameOk(f) && !IsRemote(f.canId) && !IsError(f.canId) && view.ascii
    requires dlc == Dlc(f) && q == (if view.swap then '`' else '\'')
    ensures var t, full := LongPrint(f, view), BytesEnd(f, view, 8);
            && |t| == full + 5 + dlc && t[full + 3] == q && t[|t| - 1] == q && Blank(t, BytesEnd(f, view, dlc), full + 3)
  {
    RemoteIs(f.canId);
    ColumnIs(f.canId);
    TailIsAligned(f, view);
    TailSpaces(f, view);
    assert !Has(f.canId, ERR_FLAG);
    hide LongPrint, Glyphs, Width, IsRemote, Has, Order, ClassOf, Blank;
  }

  /** Each the character its byte stands for, or a dot if that is not printed. */
  lemma QuotedCharIs(f: Frame, view: View, k: nat, dlc: nat, b: Byte)
    requires FrameOk(f) && !IsRemote(f.canId) && !IsError(f.canId) && view.ascii
    requires dlc == Dlc(f) && k < dlc && b == f.data[if view.swap then dlc - 1 - k else k]
    ensures var t, full := LongPrint(f, view), BytesEnd(f, view, 8);
            full + 4 + k < |t| && t[full + 4 + k] == if 32 <= b <= 126 then b as char else '.'
  {
    GlyphsStand(f, view, dlc);
    OrderAt(f, view.swap, k, b);
    GlyphIs(b);
    hide LongPrint, Glyphs, Glyph, Width, IsRemote, IsError, Order, BytesEnd;
    GlyphAt(Order(f, view.swap), dlc, k);
    SliceChar(LongPrint(f, view), BytesEnd(f, view, 8) + 4, Glyphs(Order(f, view.swap), dlc), k);
  }

  lemma OrderAt(f: Frame, swap: bool, k: nat, b: Byte)
    requires FrameOk(f) && k < Dlc(f) && b == f.data[if swap then Dlc(f) - 1 - k else k]
    ensures Order(f, swap)[k] == b
  {
  }

  lemma GlyphIs(b: Byte)
    ensures Glyph(b) == if 32 <= b <= 126 then b as char else '.'
  {
  }

  lemma GlyphsStand(f: Frame, view: View, dlc: nat)
    requires FrameOk(f) && !IsRemote(f.canId) && !IsError(f.canId) && view.ascii && dlc == Dlc(f)
    ensures var t, from := LongPrint(f, view), BytesEnd(f, view, 8) + 4;
            from + dlc <= |t| && t[from..from + dlc] == Glyphs(Order(f, view.swap), dlc)
  {
    RemoteIs(f.canId);
    ColumnIs(f.canId);
    TailIsAligned(f, view);
    assert !Has(f.canId, ERR_FLAG);
    hide LongPrint, Glyphs, Width, IsRemote, Has, Order, ClassOf;
  }

  lemma SliceChar(t: string, from: nat, s: string, k: nat)
    requires from + |s| <= |t| && t[from..from + |s|] == s && k < |s|
    ensures t[from + k] == s[k]
  {
  }

  lemma TailSpaces(f: Frame, view: View)
    requires FrameOk(f) && !Has(f.canId, RTR_FLAG)
    ensures var t, end, full := LongPrint(f, view), BytesEnd(f, view, Dlc(f)), BytesEnd(f, view, 8);
            if Has(f.canId, ERR_FLAG) || view.ascii then full + 3 <= |t| && Blank(t, end, full + 3)
            else |t| == end
  {
    PrintSplits(f, view);
    ColumnIs(f.canId);
    TailStarts(f, view);
    var before := Head(f) + Fields(Order(f, view.swap), Dlc(f), view.binary, view.swap);
    hide LongPrint, Head, Fields, Order, Tail, Width, Has;
    assert LongPrint(f, view) == before + Tail(f, view);
  }

  lemma TailStarts(f: Frame, view: View)
    requires FrameOk(f)
    ensures var tail, room := Tail(f, view), Columns(view.binary, 8 - Dlc(f));
            if Has(f.canId, ERR_FLAG) || view.ascii then room + 3 <= |tail| && forall i :: 0 <= i < room + 3 ==> tail[i] == ' '
            else tail == ""
  {
    hide Has, Order, Glyphs;
  }
}
