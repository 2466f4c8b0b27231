/** The policy loader's base64 decoder, against the encoding of section 4 of RFC 4648. */
module Base64 {

  import opened Machine

  // ---------- the alphabet ----------

  predicate IsValidChar(c: char) {
    || '0' <= c <= '9' || 'A' <= c <= 'Z' || 'a' <= c <= 'z'
    || c == '+' || c == '/' || c == '='
  }

  /** The decoder's table, run by run: entry i is the value of the i-th character from '+', or -1. */
  function B64Inv(i: int): int
    requires 0 <= i < 80
  {
    if i == 0 then 62
    else if i == 4 then 63
    else if 5 <= i <= 14 then i + 47
    else if 22 <= i <= 47 then i - 22
    else if 54 <= i then i - 28
    else -1
  }

  /** The character the RFC assigns to a six-bit value. */
  function Char64(v: int): (c: char)
    requires 0 <= v < 64
    ensures IsValidChar(c) && c != '='
  {
    if v < 26 then 'A' + v as char
    else if v < 52 then 'a' + (v - 26) as char
    else if v < 62 then '0' + (v - 52) as char
    else if v == 62 then '+'
    else '/'
  }

  function Value(c: char): int
    requires IsValidChar(c)
  {
    B64Inv(c as int - 43)
  }

  lemma ValueOfChar(v: int)
    requires 0 <= v < 64
    ensures Value(Char64(v)) == v
  {
  }

  lemma CharOfValue(c: char)
    requires IsValidChar(c)
    ensures c == '=' ==> Value(c) == -1
    ensures c != '=' ==> 0 <= Value(c) < 64 && Char64(Value(c)) == c
  {
  }

  const CAPITALS := "ABCDEFGHIJKLMNOPQRSTUVWXYZ"
  const SMALLS := "abcdefghijklmnopqrstuvwxyz"
  const DIGITS := "0123456789"
  const ALPHABET := CAPITALS + SMALLS + DIGITS + "+/"

  lemma CapitalAt(v: nat)
    requires v < 26
    ensures CAPITALS[v] == 'A' + v as char
  {
  }

  lemma SmallAt(v: nat)
    requires v < 26
    ensures SMALLS[v] == 'a' + v as char
  {
  }

  lemma DigitAt(v: nat)
    requires v < 10
    ensures DIGITS[v] == '0' + v as char
  {
  }

  /** The table of section 4 of RFC 4648, in full. */
  lemma AlphabetIs(v: nat)
    requires v < 64
    ensures |ALPHABET| == 64 && Char64(v) == ALPHABET[v] && IsValidChar(ALPHABET[v]) && Value(ALPHABET[v]) == v
  {
    ValueOfChar(v);
    Lengths();
    hide CAPITALS, SMALLS, DIGITS;
    if v < 26 {
      CapitalAt(v);
    } else if v < 52 {
      SmallAt(v - 26);
    } else if v < 62 {
      DigitAt(v - 52);
    }
  }

  lemma Lengths()
    ensures |CAPITALS| == |SMALLS| == 26 && |DIGITS| == 10
  {
  }

  // ---------- decoding ----------

  predicate AllValid(t: string) {
    forall i :: 0 <= i < |t| ==> IsValidChar(t[i])
  }

  /** v << 6 | x, where x is a six-bit value or the all-ones -1. */
  function ShiftIn(v: int, x: int): int {
    if x == -1 then -1 else 64 * v + x
  }

  /** The 24 bits of the group of four characters starting at i. */
  function Group(t: string, i: nat): int
    requires AllValid(t) && i + 4 <= |t|
  {
    var v := ShiftIn(Value(t[i]), Value(t[i + 1]));
    var w := if t[i + 2] == '=' then 64 * v else ShiftIn(v, Value(t[i + 2]));
    if t[i + 3] == '=' then 64 * w else ShiftIn(w, Value(t[i + 3]))
  }

  function Groups(n: nat): nat {
    (n + 2) / 3
  }

  /** Whether a group's padding lets output byte k be written. */
  predicate Present(t: string, k: nat)
    requires 4 * (k / 3) + 4 <= |t|
  {
    k % 3 == 0 || t[4 * (k / 3) + k % 3 + 1] != '='
  }

  /** Byte k of the text, from the top, middle or bottom of its group. */
  function ByteAt(t: string, k: nat): Byte
    requires AllValid(t) && 4 * (k / 3) + 4 <= |t|
  {
    var v := Group(t, 4 * (k / 3));
    if k % 3 == 0 then v / 0x1_0000 % 256 else if k % 3 == 1 then v / 0x100 % 256 else v % 256
  }

  lemma SixBitsEach(a: nat, b: nat, c: nat, d: nat)
    requires a < 64 && b < 64 && c < 64 && d < 64
    ensures var v := 64 * (64 * (64 * a + b) + c) + d;
            && v / 0x1_0000 % 256 == 4 * a + b / 16
            && v / 0x100 % 256 == b % 16 * 16 + c / 4
            && v % 256 == c % 4 * 64 + d
  {
    var v := 64 * (64 * (64 * a + b) + c) + d;
    assert v / 0x1_0000 == 4 * a + b / 16;
    assert v / 0x100 == 256 * (4 * a + b / 16) + (b % 16 * 16 + c / 4);
  }

  /** The value of a character in its group; '=' stands for no bits. */
  function Bits6(c: char): (v: nat)
    requires IsValidChar(c)
    ensures v < 64
  {
    if c == '=' then 0 else Value(c)
  }

  /** The bytes of a group from the values of its characters, eight bits each, from the top. */
  lemma BytesAre(t: string, i: nat, k: nat)
    requires AllValid(t) && i + 4 <= |t| && k % 3 == 0 && i == 4 * (k / 3) && t[i] != '=' && t[i + 1] != '='
    ensures ByteAt(t, k) == 4 * Value(t[i]) + Value(t[i + 1]) / 16
    ensures t[i + 2] != '=' ==> ByteAt(t, k + 1) == Value(t[i + 1]) % 16 * 16 + Value(t[i + 2]) / 4
    ensures t[i + 2] != '=' && t[i + 3] != '=' ==> ByteAt(t, k + 2) == Value(t[i + 2]) % 4 * 64 + Value(t[i + 3])
  {
    GroupIs(t, i);
    hide Value, Group;
    SixBitsEach(Bits6(t[i]), Bits6(t[i + 1]), Bits6(t[i + 2]), Bits6(t[i + 3]));
    assert (k + 1) / 3 == k / 3 && (k + 2) / 3 == k / 3;
  }

  lemma GroupIs(t: string, i: nat)
    requires AllValid(t) && i + 4 <= |t| && t[i] != '=' && t[i + 1] != '='
    ensures Group(t, i) == 64 * (64 * (64 * Bits6(t[i]) + Bits6(t[i + 1])) + Bits6(t[i + 2])) + Bits6(t[i + 3])
  {
    CharOfValue(t[i]);
    CharOfValue(t[i + 1]);
    CharOfValue(t[i + 2]);
    CharOfValue(t[i + 3]);
    hide Value;
  }

  /** Decoding outLen bytes stays inside the text and inside the first outLen bytes of the output. */
  ghost predicate StaysInside(t: string, outLen: nat) {
    && 4 * Groups(outLen) <= |t|
    && forall k: nat {:trigger Present(t, k)} :: outLen <= k < 3 * Groups(outLen) ==> !Present(t, k)
  }

  /** Refuses any other character before it writes; then fills groups of three bytes until outLen is reached. */
  method Decode(t: string, out: array<Byte>, outLen: nat) returns (ok: bool)
    requires outLen <= out.Length && (AllValid(t) ==> StaysInside(t, outLen))
    modifies out
    ensures ok == AllValid(t)
    ensures !ok ==> out[..] == old(out[..])
    ensures ok ==> forall k: nat :: k < out.Length ==>
                     out[k] == if k < outLen && Present(t, k) then ByteAt(t, k) else old(out[k])
  {
    var i: nat := 0;
    while i < |t|
      invariant i <= |t| && forall k :: 0 <= k < i ==> IsValidChar(t[k])
    {
      if !IsValidChar(t[i]) {
        return false;
      }
      i := i + 1;
    }
    i := 0;
    var j: nat := 0;
    while j < outLen
      invariant j % 3 == 0 && i == 4 * (j / 3) && j <= 3 * Groups(outLen)
      invariant forall k: nat :: k < out.Length ==>
                  out[k] == if k < j && k < outLen && Present(t, k) then ByteAt(t, k) else old(out[k])
    {
      DecodeGroup(t, out, outLen, i, j);
      i, j := i + 4, j + 3;
    }
    ok := true;
  }

  method GroupValue(t: string, i: nat) returns (v: int)
    requires AllValid(t) && i + 4 <= |t|
    ensures v == Group(t, i)
  {
    v := Value(t[i]);
    v := ShiftIn(v, Value(t[i + 1]));
    v := if t[i + 2] == '=' then 64 * v else ShiftIn(v, Value(t[i + 2]));
    v := if t[i + 3] == '=' then 64 * v else ShiftIn(v, Value(t[i + 3]));
  }

  /** One round: the bytes whose characters are not padding. */
  method DecodeGroup(t: string, out: array<Byte>, outLen: nat, i: nat, j: nat)
    requires AllValid(t) && outLen <= out.Length && StaysInside(t, outLen)
    requires j % 3 == 0 && i == 4 * (j / 3) && j < outLen
    modifies out
    ensures i + 4 <= |t|
    ensures forall k: nat :: k < out.Length ==>
              out[k] == if j <= k < j + 3 && k < outLen && Present(t, k) then ByteAt(t, k) else old(out[k])
  {
    hide AllValid, Group;
    assert j + 3 <= 3 * Groups(outLen);
    assert (j + 1) / 3 == j / 3 == (j + 2) / 3 && (j + 1) % 3 == 1 && (j + 2) % 3 == 2;
    assert Present(t, j + 1) ==> j + 1 < outLen;
    assert Present(t, j + 2) ==> j + 2 < outLen;
    var v := GroupValue(t, i);
    var top, middle, bottom := ByteAt(t, j), ByteAt(t, j + 1), ByteAt(t, j + 2);
    assert top == v / 0x1_0000 % 256 && middle == v / 0x100 % 256 && bottom == v % 256;
    hide ByteAt, StaysInside, Groups;
    out[j] := v / 0x1_0000 % 256;
    if t[i + 2] != '=' {
      out[j + 1] := v / 0x100 % 256;
    }
    if t[i + 3] != '=' {
      out[j + 2] := v % 256;
    }
  }

  // ---------- encoding ----------

  /** Byte k, or the zero bits the encoding appends. */
  function At(bytes: seq<Byte>, k: nat): (b: int)
    ensures 0 <= b < 256
  {
    if k < |bytes| then bytes[k] else 0
  }

  /** The four six-bit pieces of three bytes. */
  function Piece(a: int, b: int, c: int, r: int): (v: int)
    requires 0 <= a < 256 && 0 <= b < 256 && 0 <= c < 256
    ensures 0 <= v < 64
  {
    if r == 0 then a / 4 else if r == 1 then a % 4 * 16 + b / 16 else if r == 2 then b % 16 * 4 + c / 64 else c % 64
  }

  /** Character p of the encoding: a six-bit piece of its group of three bytes, or padding. */
  function EncodedAt(bytes: seq<Byte>, p: nat): (c: char)
    requires p < 4 * Groups(|bytes|)
    ensures IsValidChar(c)
  {
    var k := 3 * (p / 4);
    var a: int, b: int, c: int := At(bytes, k), At(bytes, k + 1), At(bytes, k + 2);
    if p % 4 == 0 then Char64(Piece(a, b, c, 0))
    else if p % 4 == 1 then Char64(Piece(a, b, c, 1))
    else if p % 4 == 2 then if k + 1 < |bytes| then Char64(Piece(a, b, c, 2)) else '='
    else if k + 2 < |bytes| then Char64(Piece(a, b, c, 3)) else '='
  }

  function Encode(bytes: seq<Byte>): (t: string)
    ensures |t| == 4 * Groups(|bytes|)
  {
    seq(4 * Groups(|bytes|), p requires 0 <= p < 4 * Groups(|bytes|) => EncodedAt(bytes, p))
  }

  lemma EncodeIsValid(bytes: seq<Byte>)
    ensures AllValid(Encode(bytes))
  {
  }

  /** Four six-bit pieces make the three bytes again. */
  lemma PiecesJoin(a: int, b: int, c: int)
    requires 0 <= a < 256 && 0 <= b < 256 && 0 <= c < 256
    ensures 64 * (64 * (64 * Piece(a, b, c, 0) + Piece(a, b, c, 1)) + Piece(a, b, c, 2)) + Piece(a, b, c, 3)
            == 0x1_0000 * a + 0x100 * b + c
    ensures b == 0 && c == 0 ==> Piece(a, b, c, 2) == 0
    ensures c == 0 ==> Piece(a, b, c, 3) == 0
  {
    var p, q, r := a / 4, b / 16, c / 64;
    assert a == 4 * p + a % 4 && b == 16 * q + b % 16 && c == 64 * r + c % 64;
  }

  lemma BytesOf(a: int, b: int, c: int)
    requires 0 <= a < 256 && 0 <= b < 256 && 0 <= c < 256
    ensures var v := 0x1_0000 * a + 0x100 * b + c;
            v / 0x1_0000 % 256 == a && v / 0x100 % 256 == b && v % 256 == c
  {
    var v := 0x1_0000 * a + 0x100 * b + c;
    assert v / 0x100 == 0x100 * a + b;
  }

  /** A group of the encoding holds its three bytes, or zeros where the padding is. */
  lemma GroupOfEncoding(bytes: seq<Byte>, g: nat)
    requires g < Groups(|bytes|) && AllValid(Encode(bytes))
    ensures Group(Encode(bytes), 4 * g) == 0x1_0000 * At(bytes, 3 * g) + 0x100 * At(bytes, 3 * g + 1) + At(bytes, 3 * g + 2)
  {
    var t := Encode(bytes);
    var a, b, c := At(bytes, 3 * g), At(bytes, 3 * g + 1), At(bytes, 3 * g + 2);
    EncodedGroup(bytes, g);
    PiecesJoin(a, b, c);
    hide Encode, AllValid, Piece, Value, Char64;
    ValueOfChar(Piece(a, b, c, 0));
    ValueOfChar(Piece(a, b, c, 1));
    ValueOfChar(Piece(a, b, c, 2));
    ValueOfChar(Piece(a, b, c, 3));
  }

  lemma EncodedGroup(bytes: seq<Byte>, g: nat)
    requires g < Groups(|bytes|)
    ensures var t := Encode(bytes);
            var a, b, c := At(bytes, 3 * g), At(bytes, 3 * g + 1), At(bytes, 3 * g + 2);
            && t[4 * g] == Char64(Piece(a, b, c, 0)) && t[4 * g + 1] == Char64(Piece(a, b, c, 1))
            && t[4 * g + 2] == (if 3 * g + 1 < |bytes| then Char64(Piece(a, b, c, 2)) else '=')
            && t[4 * g + 3] == (if 3 * g + 2 < |bytes| then Char64(Piece(a, b, c, 3)) else '=')
  {
    hide Char64, Piece, At;
    var t := Encode(bytes);
    assert (4 * g + 1) / 4 == (4 * g + 2) / 4 == (4 * g + 3) / 4 == g;
    assert t[4 * g] == EncodedAt(bytes, 4 * g) && t[4 * g + 1] == EncodedAt(bytes, 4 * g + 1);
    assert t[4 * g + 2] == EncodedAt(bytes, 4 * g + 2) && t[4 * g + 3] == EncodedAt(bytes, 4 * g + 3);
  }

  /** What the encoding leaves unwritten is exactly what lies past the last byte. */
  lemma EncodingPresence(bytes: seq<Byte>, k: nat)
    requires k < 3 * Groups(|bytes|)
    ensures Present(Encode(bytes), k) <==> k < |bytes|
  {
    EncodedGroup(bytes, k / 3);
    hide Encode, Char64, Piece, At;
    var g, r := k / 3, k % 3;
    assert k == 3 * g + r;
  }

  /** Decoding an encoding, for its own length, is memory safe and gives the bytes back. */
  lemma DecodingInvertsEncoding(bytes: seq<Byte>)
    ensures var t := Encode(bytes);
            && AllValid(t) && StaysInside(t, |bytes|)
            && forall k: nat :: k < |bytes| ==> Present(t, k) && ByteAt(t, k) == bytes[k]
  {
    var t := Encode(bytes);
    EncodeIsValid(bytes);
    hide Encode, AllValid, Present, Group;
    forall k: nat | k < 3 * Groups(|bytes|)
      ensures Present(t, k) <==> k < |bytes|
    {
      EncodingPresence(bytes, k);
    }
    forall k: nat | k < |bytes|
      ensures ByteAt(t, k) == bytes[k]
    {
      var g := k / 3;
      GroupOfEncoding(bytes, g);
      BytesOf(At(bytes, 3 * g), At(bytes, 3 * g + 1), At(bytes, 3 * g + 2));
      assert k == 3 * g + k % 3;
    }
  }

  // ---------- which texts are encodings ----------

  /** Padded for n bytes: whole groups, with = just where there is no byte. */
  ghost predicate PaddedFor(t: string, n: nat) {
    && AllValid(t) && |t| == 4 * Groups(n)
    && forall g: nat {:trigger GroupPadded(t, n, g)} :: g < Groups(n) ==> GroupPadded(t, n, g)
  }

  predicate GroupPadded(t: string, n: nat, g: nat)
    requires 4 * g + 4 <= |t|
  {
    && t[4 * g] != '=' && t[4 * g + 1] != '='
    && (t[4 * g + 2] == '=' <==> 3 * g + 1 >= n)
    && (t[4 * g + 3] == '=' <==> 3 * g + 2 >= n)
  }

  function Decoded(t: string, n: nat): (bytes: seq<Byte>)
    requires AllValid(t) && |t| == 4 * Groups(n)
    ensures |bytes| == n
  {
    seq(n, k requires 0 <= k < n => ByteAt(t, k))
  }

  /** The bits of the last character before the padding that no byte takes. */
  predicate SpareBitsAreZero(t: string, n: nat)
    requires AllValid(t) && |t| == 4 * Groups(n)
  {
    && (n % 3 == 1 ==> Value(t[|t| - 3]) % 16 == 0)
    && (n % 3 == 2 ==> Value(t[|t| - 2]) % 4 == 0)
  }

  lemma PiecesOfJoined(p: int, q: int, r: int, s: int)
    requires 0 <= p < 64 && 0 <= q < 64 && 0 <= r < 64 && 0 <= s < 64
    ensures var v := 64 * (64 * (64 * p + q) + r) + s;
            var a, b, c := v / 0x1_0000 % 256, v / 0x100 % 256, v % 256;
            && a == 4 * p + q / 16 && b == q % 16 * 16 + r / 4 && c == r % 4 * 64 + s
  {
    var a, b, c := 4 * p + q / 16, q % 16 * 16 + r / 4, r % 4 * 64 + s;
    assert q == 16 * (q / 16) + q % 16 && r == 4 * (r / 4) + r % 4;
    BytesOf(a, b, c);
  }

  lemma PiecesAgain(p: int, q: int, r: int, s: int)
    requires 0 <= p < 64 && 0 <= q < 64 && 0 <= r < 64 && 0 <= s < 64
    ensures var a, b, c := 4 * p + q / 16, q % 16 * 16 + r / 4, r % 4 * 64 + s;
            && Piece(a, b, c, 0) == p && Piece(a, b, c, 1) == q && Piece(a, b, c, 2) == r && Piece(a, b, c, 3) == s
    ensures Piece(4 * p + q / 16, 0, 0, 0) == p && Piece(4 * p + q / 16, 0, 0, 1) == q - q % 16
    ensures var a, b := 4 * p + q / 16, q % 16 * 16 + r / 4;
            Piece(a, b, 0, 1) == q && Piece(a, b, 0, 2) == r - r % 4 && Piece(a, b, 0, 0) == p
  {
  }

  lemma IsCharOf(x: int, c: char)
    requires 0 <= x < 64 && IsValidChar(c) && c != '='
    ensures Char64(x) == c <==> x == Value(c)
  {
    ValueOfChar(x);
    CharOfValue(c);
  }

  predicate SpareInGroup(t: string, n: nat, g: nat)
    requires AllValid(t) && 4 * g + 4 <= |t|
  {
    if 3 * g + 1 >= n then Value(t[4 * g + 1]) % 16 == 0
    else 3 * g + 2 >= n ==> Value(t[4 * g + 2]) % 4 == 0
  }

  lemma BytesOfGroup(t: string, g: nat, p: int, q: int, r: int, s: int)
    requires AllValid(t) && 4 * g + 4 <= |t|
    requires 0 <= p < 64 && 0 <= q < 64 && 0 <= r < 64 && 0 <= s < 64
    requires Group(t, 4 * g) == 64 * (64 * (64 * p + q) + r) + s
    ensures (3 * g) / 3 == (3 * g + 1) / 3 == (3 * g + 2) / 3 == g
    ensures ByteAt(t, 3 * g) == 4 * p + q / 16
    ensures ByteAt(t, 3 * g + 1) == q % 16 * 16 + r / 4
    ensures ByteAt(t, 3 * g + 2) == r % 4 * 64 + s
  {
    hide Group, AllValid;
    var v := Group(t, 4 * g);
    assert ByteAt(t, 3 * g) == v / 0x1_0000 % 256;
    assert ByteAt(t, 3 * g + 1) == v / 0x100 % 256;
    assert ByteAt(t, 3 * g + 2) == v % 256;
    hide ByteAt;
    PiecesOfJoined(p, q, r, s);
  }

  lemma AtDecoded(t: string, n: nat, k: nat)
    requires AllValid(t) && |t| == 4 * Groups(n) && k < 3 * Groups(n)
    ensures At(Decoded(t, n), k) == if k < n then ByteAt(t, k) else 0
  {
    hide AllValid, ByteAt;
  }

  lemma PaddedValues(t: string, n: nat, g: nat) returns (p: int, q: int, r: int, s: int)
    requires AllValid(t) && 4 * g + 4 <= |t| && GroupPadded(t, n, g)
    ensures 0 <= p < 64 && 0 <= q < 64 && 0 <= r < 64 && 0 <= s < 64
    ensures p == Value(t[4 * g]) && q == Value(t[4 * g + 1])
    ensures 3 * g + 1 < n ==> r == Value(t[4 * g + 2])
    ensures 3 * g + 2 < n ==> s == Value(t[4 * g + 3])
    ensures Group(t, 4 * g) == 64 * (64 * (64 * p + q) + r) + s
  {
    CharOfValue(t[4 * g]);
    CharOfValue(t[4 * g + 1]);
    CharOfValue(t[4 * g + 2]);
    CharOfValue(t[4 * g + 3]);
    p, q := Value(t[4 * g]), Value(t[4 * g + 1]);
    r := if 3 * g + 1 < n then Value(t[4 * g + 2]) else 0;
    s := if 3 * g + 2 < n then Value(t[4 * g + 3]) else 0;
    hide Value, IsValidChar;
  }

  lemma PaddedGroup(t: string, n: nat, g: nat)
    requires PaddedFor(t, n) && g < Groups(n)
    ensures AllValid(t) && |t| == 4 * Groups(n) && GroupPadded(t, n, g)
  {
  }

  predicate SameGroup(e: string, t: string, g: nat)
    requires 4 * g + 4 <= |t| == |e|
  {
    e[4 * g] == t[4 * g] && e[4 * g + 1] == t[4 * g + 1] && e[4 * g + 2] == t[4 * g + 2] && e[4 * g + 3] == t[4 * g + 3]
  }

  /** A group, decoded and encoded again, comes back unless it has spare bits set. */
  lemma GroupComesBackIff(t: string, n: nat, g: nat)
    requires PaddedFor(t, n) && g < Groups(n)
    ensures SameGroup(Encode(Decoded(t, n)), t, g) <==> SpareInGroup(t, n, g)
  {
    PaddedGroup(t, n, g);
    ValidGroup(t, g);
    var p, q, r, s := PaddedValues(t, n, g);
    DecodedGroup(t, n, g, p, q, r, s);
    var bytes := Decoded(t, n);
    EncodedGroup(bytes, g);
    var a, b, c := At(bytes, 3 * g), At(bytes, 3 * g + 1), At(bytes, 3 * g + 2);
    hide PaddedFor, Encode, Decoded, Group, Piece, Char64, Value, AllValid, IsValidChar, At, Groups;
    FourComeBackIff(t[4 * g], t[4 * g + 1], t[4 * g + 2], t[4 * g + 3], 3 * g + 1 < n, 3 * g + 2 < n, p, q, r, s);
  }

  /** Four characters of values p, q, r, s whose bytes, less those that the padding drops, are encoded again. */
  lemma FourComeBackIff(w: char, x: char, y: char, z: char, second: bool, third: bool, p: int, q: int, r: int, s: int)
    requires IsValidChar(w) && IsValidChar(x) && IsValidChar(y) && IsValidChar(z) && w != '=' && x != '='
    requires (y == '=' <==> !second) && (z == '=' <==> !third) && (third ==> second)
    requires 0 <= p < 64 && 0 <= q < 64 && 0 <= r < 64 && 0 <= s < 64 && p == Value(w) && q == Value(x)
    requires (second ==> r == Value(y)) && (third ==> s == Value(z))
    ensures var a := 4 * p + q / 16;
            var b, c := if second then q % 16 * 16 + r / 4 else 0, if third then r % 4 * 64 + s else 0;
            && (Char64(Piece(a, b, c, 0)) == w && Char64(Piece(a, b, c, 1)) == x
                && (second ==> Char64(Piece(a, b, c, 2)) == y) && (third ==> Char64(Piece(a, b, c, 3)) == z)
                <==> if second then third || r % 4 == 0 else q % 16 == 0)
  {
    var a := 4 * p + q / 16;
    var b, c := if second then q % 16 * 16 + r / 4 else 0, if third then r % 4 * 64 + s else 0;
    PiecesAgain(p, q, r, s);
    hide Char64, Value, IsValidChar, Piece;
    IsCharOf(Piece(a, b, c, 0), w);
    IsCharOf(Piece(a, b, c, 1), x);
    if second {
      IsCharOf(Piece(a, b, c, 2), y);
    }
    if third {
      IsCharOf(Piece(a, b, c, 3), z);
    }
  }

  lemma DecodedGroup(t: string, n: nat, g: nat, p: int, q: int, r: int, s: int)
    requires AllValid(t) && |t| == 4 * Groups(n) && g < Groups(n)
    requires 0 <= p < 64 && 0 <= q < 64 && 0 <= r < 64 && 0 <= s < 64
    requires Group(t, 4 * g) == 64 * (64 * (64 * p + q) + r) + s
    ensures At(Decoded(t, n), 3 * g) == 4 * p + q / 16
    ensures At(Decoded(t, n), 3 * g + 1) == if 3 * g + 1 < n then q % 16 * 16 + r / 4 else 0
    ensures At(Decoded(t, n), 3 * g + 2) == if 3 * g + 2 < n then r % 4 * 64 + s else 0
  {
    BytesOfGroup(t, g, p, q, r, s);
    AtDecoded(t, n, 3 * g);
    AtDecoded(t, n, 3 * g + 1);
    AtDecoded(t, n, 3 * g + 2);
    assert 3 * g < n;
    hide AllValid, Group, ByteAt, Decoded, At, Groups;
  }

  lemma ValidGroup(t: string, g: nat)
    requires AllValid(t) && 4 * g + 4 <= |t|
    ensures IsValidChar(t[4 * g]) && IsValidChar(t[4 * g + 1]) && IsValidChar(t[4 * g + 2]) && IsValidChar(t[4 * g + 3])
  {
  }

  lemma OnlyLastIsSpare(t: string, n: nat, g: nat)
    requires AllValid(t) && |t| == 4 * Groups(n) && g < Groups(n)
    ensures g + 1 < Groups(n) ==> SpareInGroup(t, n, g)
    ensures g + 1 == Groups(n) ==> (SpareInGroup(t, n, g) <==> SpareBitsAreZero(t, n))
  {
    hide Value, AllValid;
    if g + 1 == Groups(n) {
      assert n == 3 * g + 1 || n == 3 * g + 2 || n == 3 * g + 3;
      assert |t| - 3 == 4 * g + 1 && |t| - 2 == 4 * g + 2;
    }
  }

  lemma SameGroupsSameText(e: string, t: string, m: nat)
    requires |e| == |t| == 4 * m
    requires forall g: nat {:trigger SameGroup(e, t, g)} :: g < m ==> SameGroup(e, t, g)
    ensures e == t
  {
    forall i: nat | i < |t|
      ensures e[i] == t[i]
    {
      var g := i / 4;
      assert i == 4 * g + i % 4 && SameGroup(e, t, g);
    }
  }

  lemma ComesBackIfCanonical(t: string, n: nat)
    requires PaddedFor(t, n) && SpareBitsAreZero(t, n)
    ensures Encode(Decoded(t, n)) == t
  {
    assert AllValid(t) && |t| == 4 * Groups(n);
    hide *;
    forall g: nat | g < Groups(n)
      ensures SameGroup(Encode(Decoded(t, n)), t, g)
    {
      OnlyLastIsSpare(t, n, g);
      GroupComesBackIff(t, n, g);
    }
    SameGroupsSameText(Encode(Decoded(t, n)), t, Groups(n));
  }

  lemma PaddedIsCanonicalIff(t: string, n: nat)
    requires PaddedFor(t, n)
    ensures Encode(Decoded(t, n)) == t <==> SpareBitsAreZero(t, n)
  {
    if SpareBitsAreZero(t, n) {
      ComesBackIfCanonical(t, n);
    } else {
      var last := Groups(n) - 1;
      OnlyLastIsSpare(t, n, last);
      GroupComesBackIff(t, n, last);
      hide PaddedFor, Encode, Decoded, AllValid, Value, SpareBitsAreZero, SpareInGroup;
    }
  }

  /** An encoding is padded for its bytes. */
  lemma EncodingIsPadded(bytes: seq<Byte>)
    ensures PaddedFor(Encode(bytes), |bytes|)
  {
    EncodeIsValid(bytes);
    hide Encode, AllValid;
    forall g: nat | g < Groups(|bytes|)
      ensures GroupPadded(Encode(bytes), |bytes|, g)
    {
      EncodedGroup(bytes, g);
      hide Piece, At, Groups;
    }
  }

  /** bytes as an accepted text leaves them in the output: its own where there is a character for them. */
  ghost predicate LeavesIn(t: string, bytes: seq<Byte>)
    requires AllValid(t) && 4 * Groups(|bytes|) <= |t|
  {
    forall k: nat {:trigger ByteAt(t, k)} :: k < |bytes| && Present(t, k) ==> bytes[k] == ByteAt(t, k)
  }

  lemma PaddedLeaves(t: string, bytes: seq<Byte>)
    requires PaddedFor(t, |bytes|) && LeavesIn(t, bytes)
    ensures bytes == Decoded(t, |bytes|)
  {
    forall k: nat | k < |bytes|
      ensures bytes[k] == ByteAt(t, k)
    {
      var g := k / 3;
      assert k == 3 * g + k % 3 && GroupPadded(t, |bytes|, g);
      hide ByteAt, AllValid;
      assert Present(t, k);
    }
  }

  /** Of all accepted texts the encodings are those that are padded for the output's length and have no spare bit set. */
  lemma IsCanonicalIff(t: string, bytes: seq<Byte>)
    requires AllValid(t) && StaysInside(t, |bytes|) && LeavesIn(t, bytes)
    ensures Encode(bytes) == t <==> PaddedFor(t, |bytes|) && SpareBitsAreZero(t, |bytes|)
  {
    var n := |bytes|;
    if Encode(bytes) == t {
      EncodingIsPadded(bytes);
    }
    if PaddedFor(t, n) {
      PaddedLeaves(t, bytes);
      PaddedIsCanonicalIff(t, n);
    }
    hide Encode, Decoded, AllValid, StaysInside, LeavesIn, SpareBitsAreZero;
  }

  /** "QR==" is accepted for the byte 'A', whose encoding is "QQ==". */
  lemma SpareBitsAreAccepted(t: string)
    requires t == "QR=="
    ensures AllValid(t) && StaysInside(t, 1) && LeavesIn(t, [65]) && Encode([65]) != t
  {
    assert Value('R') == 17 && Value('Q') == 16;
    assert Group(t, 0) == 65 * 0x1_0000 + 0x1000;
    IsCanonicalIff(t, [65]);
  }

  /** "=AAA" is accepted for three bytes, whatever they are, and is the encoding of none. */
  lemma MisplacedPaddingIsAccepted(t: string, bytes: seq<Byte>)
    requires t == "=AAA" && |bytes| == 3
    ensures AllValid(t) && StaysInside(t, 3) && Encode(bytes) != t
  {
    EncodedGroup(bytes, 0);
  }
}
