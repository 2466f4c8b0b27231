/** Checksum validation of NMEA sentences, and rescaling of the fixed-point values read from them. */
module NmeaCheck {
  import Machine
  import opened CStrings
  import opened NmeaFixed
  import opened NmeaScan

  const MAX_LENGTH := 80

  /** The byte a character is. */
  function Byte(c: char): (b: int)
    ensures 0 <= b < 256
  {
    c as int % 256
  }

  /** a ^ b on n-bit numbers, bit by bit. */
  function Xor(a: nat, b: nat, n: nat): nat {
    if n == 0 then 0 else (a % 2 + b % 2) % 2 + 2 * Xor(a / 2, b / 2, n - 1)
  }

  function Hex2Int(c: char): (n: int)
    ensures -1 <= n < 16
  {
    if '0' <= c <= '9' then c as int - '0' as int
    else if 'A' <= c <= 'F' then c as int - 'A' as int + 10
    else if 'a' <= c <= 'f' then c as int - 'a' as int + 10
    else -1
  }

  /** The exclusive or of the bytes from i to j. */
  function XorOf(s: string, i: nat, j: nat): nat
    requires i <= j <= |s|
  {
    if i == j then 0 else Xor(XorOf(s, i, j - 1), Byte(s[j - 1]), 8)
  }

  /** The first '*' at or after i, or the end. */
  function Star(s: string, i: nat): (k: nat)
    requires i <= |s|
    ensures i <= k <= |s| && (k < |s| ==> s[k] == '*') && forall j :: i <= j < k ==> s[j] != '*'
    decreases |s| - i
  {
    if i == |s| || s[i] == '*' then i else Star(s, i + 1)
  }

  /** The checksum of a sentence with or without its dollar sign. */
  function ChecksumOf(s: string): nat {
    var start := if At(s, 0) == '$' then 1 else 0;
    XorOf(s, start, Star(s, start))
  }

  method Checksum(s: string) returns (checksum: nat)
    requires NulFree(s)
    ensures checksum == ChecksumOf(s)
  {
    var start: nat := if At(s, 0) == '$' then 1 else 0;
    var sentence := start;
    checksum := 0;
    while At(s, sentence) != NUL && At(s, sentence) != '*'
      invariant start <= sentence <= |s| && checksum == XorOf(s, start, sentence)
      invariant forall j :: start <= j < sentence ==> s[j] != '*'
      decreases |s| - sentence
    {
      checksum := Xor(checksum, Byte(At(s, sentence)), 8);
      sentence := sentence + 1;
    }
    assert sentence == Star(s, start);
  }

  ghost predicate IsBody(s: string, k: nat) {
    k <= |s| && forall j :: 1 <= j < k ==> IsPrint(s[j]) && s[j] != '*'
  }

  ghost predicate IsTail(t: string) {
    t == "" || t == "\n" || t == "\r\n"
  }

  /** '$', a printable body up to position k, '*', two hex digits that write the checksum, and at most a line end. */
  ghost predicate IsChecked(s: string, k: nat) {
    && 1 <= k && k + 2 < |s| <= MAX_LENGTH + 3 && s[0] == '$' && IsBody(s, k) && s[k] == '*'
    && Hex2Int(s[k + 1]) != -1 && Hex2Int(s[k + 2]) != -1
    && ChecksumOf(s) == 16 * Hex2Int(s[k + 1]) + Hex2Int(s[k + 2])
    && IsTail(s[k + 3..])
  }

  /** '$', a printable body up to position k, and at most a line end. */
  ghost predicate IsUnchecked(s: string, k: nat) {
    1 <= k <= |s| <= MAX_LENGTH + 3 && s[0] == '$' && IsBody(s, k) && IsTail(s[k..])
  }

  method Check(s: string, strict: bool) returns (ok: bool)
    requires NulFree(s)
    ensures ok <==> (exists k: nat :: IsChecked(s, k)) || (!strict && exists k: nat :: IsUnchecked(s, k))
  {
    if |s| > MAX_LENGTH + 3 || At(s, 0) != '$' {
      return false;
    }
    var checksum: nat, sentence: nat := 0, 1;
    while At(s, sentence) != NUL && At(s, sentence) != '*' && IsPrint(At(s, sentence))
      invariant 1 <= sentence <= |s| && IsBody(s, sentence) && checksum == XorOf(s, 1, sentence)
      decreases |s| - sentence
    {
      checksum := Xor(checksum, Byte(At(s, sentence)), 8);
      sentence := sentence + 1;
    }
    ghost var k := sentence;
    BodyEnds(s, k);
    if At(s, sentence) == '*' {
      sentence := sentence + 1;
      var upper := Hex2Int(At(s, sentence));
      sentence := sentence + 1;
      if upper == -1 {
        return false;
      }
      var lower := Hex2Int(At(s, sentence));
      sentence := sentence + 1;
      if lower == -1 {
        return false;
      }
      assert Star(s, 1) == k;
      if checksum != 16 * upper + lower {
        return false;
      }
      ok := s[sentence..] == "" || s[sentence..] == "\n" || s[sentence..] == "\r\n";
      assert ok ==> IsChecked(s, k);
    } else if strict {
      return false;
    } else {
      ok := s[sentence..] == "" || s[sentence..] == "\n" || s[sentence..] == "\r\n";
      assert ok ==> IsUnchecked(s, k);
    }
  }

  /** Where the body loop stops is where any accepted sentence has its '*' or its line end. */
  lemma BodyEnds(s: string, k: nat)
    requires NulFree(s) && 1 <= k <= |s| && IsBody(s, k) && (At(s, k) == NUL || At(s, k) == '*' || !IsPrint(At(s, k)))
    ensures forall k': nat :: IsChecked(s, k') ==> k' == k
    ensures forall k': nat :: IsUnchecked(s, k') ==> k' == k
  {
    forall k': nat | IsUnchecked(s, k')
      ensures k' == k
    {
      var t := s[k'..];
      assert t != "" ==> t[0] == s[k'] && !IsPrint(t[0]);
    }
  }

  // ---------- what the checksum is ----------

  /** How many of the first n characters have bit b set. */
  function CountBit(t: string, n: nat, b: nat): nat
    requires n <= |t|
  {
    if n == 0 then 0 else CountBit(t, n - 1, b) + if Machine.Bit(t[n - 1] as int % 256, b) then 1 else 0
  }

  /** n is the byte whose bit b is set exactly if an odd number of the text's characters have it set. */
  ghost predicate IsParity(n: nat, text: string) {
    n < 256 && forall b: nat {:trigger Machine.Bit(n, b)} :: b < 8 ==> (Machine.Bit(n, b) <==> CountBit(text, |text|, b) % 2 == 1)
  }

  lemma {:induction false} XorBit(a: nat, b: nat, n: nat, k: nat)
    requires k < n
    ensures Machine.Bit(Xor(a, b, n), k) <==> Machine.Bit(a, k) != Machine.Bit(b, k)
  {
    var low, rest := (a % 2 + b % 2) % 2, Xor(a / 2, b / 2, n - 1);
    assert Xor(a, b, n) == low + 2 * rest && (low + 2 * rest) / 2 == rest;
    if k > 0 {
      XorBit(a / 2, b / 2, n - 1, k - 1);
    }
  }

  lemma NoBit(k: nat)
    ensures !Machine.Bit(0, k)
  {
    if k > 0 {
      NoBit(k - 1);
    }
  }

  lemma {:induction false} XorCounts(s: string, i: nat, text: string, n: nat, b: nat)
    requires n <= |text| && i + n <= |s| && b < 8 && forall j :: 0 <= j < n ==> s[i + j] == text[j]
    ensures Machine.Bit(XorOf(s, i, i + n), b) <==> CountBit(text, n, b) % 2 == 1
  {
    if n == 0 {
      NoBit(b);
    } else {
      XorCounts(s, i, text, n - 1, b);
      hide Byte, Xor;
      assert s[i + n - 1] == s[i + (n - 1)] == text[n - 1];
      XorBit(XorOf(s, i, i + n - 1), Byte(s[i + n - 1]), 8, b);
    }
  }

  lemma XorIsParity(s: string, i: nat, text: string)
    requires i + |text| <= |s| && s[i..i + |text|] == text
    ensures IsParity(XorOf(s, i, i + |text|), text)
  {
    var n := XorOf(s, i, i + |text|);
    XorOfIsByte(s, i, i + |text|);
    forall j | 0 <= j < |text|
      ensures s[i + j] == text[j]
    {
      assert s[i..i + |text|][j] == s[i + j];
    }
    forall b: nat {:trigger Machine.Bit(n, b)} | b < 8
      ensures Machine.Bit(n, b) <==> CountBit(text, |text|, b) % 2 == 1
    {
      XorCounts(s, i, text, |text|, b);
    }
  }

  lemma {:induction false} SameBits(a: nat, b: nat, n: nat)
    requires a < Machine.Pow2(n) && b < Machine.Pow2(n) && forall k: nat :: k < n ==> (Machine.Bit(a, k) <==> Machine.Bit(b, k))
    ensures a == b
  {
    if n > 0 {
      assert Machine.Bit(a, 0) <==> Machine.Bit(b, 0);
      forall k: nat | k < n - 1
        ensures Machine.Bit(a / 2, k) <==> Machine.Bit(b / 2, k)
      {
        assert Machine.Bit(a, k + 1) <==> Machine.Bit(b, k + 1);
      }
      SameBits(a / 2, b / 2, n - 1);
    }
  }

  lemma ParityIsUnique(a: nat, b: nat, text: string)
    requires IsParity(a, text) && IsParity(b, text)
    ensures a == b
  {
    EightBits();
    assert forall k: nat {:trigger Machine.Bit(a, k)} :: k < 8 ==> (Machine.Bit(a, k) <==> Machine.Bit(b, k));
    SameBits(a, b, 8);
  }

  /** With or without a dollar sign, the checksum is the parity of what stands before the first '*'. */
  lemma ChecksumIsParity(text: string, tail: string)
    requires '*' !in text && (tail == "" || tail[0] == '*')
    ensures IsParity(ChecksumOf("$" + text + tail), text)
    ensures text + tail == "" || (text + tail)[0] != '$' ==> IsParity(ChecksumOf(text + tail), text)
  {
    var s, t := "$" + text + tail, text + tail;
    Parts("$", text, tail);
    hide IsParity;
    StretchIsParity(s, 1, text, tail);
    if t == "" || t[0] != '$' {
      Parts("", text, tail);
      assert "" + text + tail == t;
      StretchIsParity(t, 0, text, tail);
    }
  }

  lemma Parts(a: string, b: string, c: string)
    ensures var s := a + b + c; |s| == |a| + |b| + |c| && s[|a|..|a| + |b|] == b && s[|a| + |b|..] == c && (a != "" ==> s[0] == a[0])
  {
  }

  lemma StretchIsParity(s: string, i: nat, text: string, tail: string)
    requires i + |text| <= |s| && s[i..i + |text|] == text && s[i + |text|..] == tail
    requires '*' !in text && (tail == "" || tail[0] == '*') && i == if At(s, 0) == '$' then 1 else 0
    ensures IsParity(ChecksumOf(s), text)
  {
    hide IsParity;
    StarAt(s, i, text, tail);
    XorIsParity(s, i, text);
  }

  lemma {:induction false} StarAt(s: string, i: nat, text: string, tail: string)
    requires i + |text| <= |s| && s[i..i + |text|] == text && s[i + |text|..] == tail
    requires '*' !in text && (tail == "" || tail[0] == '*')
    ensures Star(s, i) == i + |text|
  {
    var e := i + |text|;
    forall j | i <= j < e
      ensures s[j] != '*'
    {
      assert s[i..e][j - i] == s[j] && text[j - i] in text;
    }
    assert e < |s| ==> s[e] == tail[0];
  }

  // ---------- sentences as they are written ----------

  /** Printable characters other than '*'. */
  ghost predicate IsText(text: string) {
    forall i :: 0 <= i < |text| ==> ' ' <= text[i] <= '~' && text[i] != '*'
  }

  predicate IsHex(c: char, v: nat)
    requires v < 16
  {
    c == Machine.UPPER[v] || c == Machine.LOWER[v]
  }

  lemma HexIs(c: char, v: nat)
    requires v < 16
    ensures IsHex(c, v) <==> Hex2Int(c) == v
  {
    Machine.DigitAt(v);
    hide Machine.UPPER, Machine.LOWER;
  }

  /** '$', text, '*', the two digits of its parity in either case, and at most a line end; at most 83 characters. */
  ghost predicate IsSentence(s: string, text: string, n: nat, hi: char, lo: char, tail: string) {
    && s == "$" + text + "*" + [hi, lo] + tail && |s| <= 83 && IsText(text)
    && IsParity(n, text) && IsHex(hi, n / 16) && IsHex(lo, n % 16)
    && (tail == "" || tail == "\n" || tail == "\r\n")
  }

  /** The same without a checksum. */
  ghost predicate IsBareSentence(s: string, text: string, tail: string) {
    s == "$" + text + tail && |s| <= 83 && IsText(text) && (tail == "" || tail == "\n" || tail == "\r\n")
  }

  lemma SentenceIsChecked(s: string, text: string, n: nat, hi: char, lo: char, tail: string)
    requires IsSentence(s, text, n, hi, lo, tail)
    ensures IsChecked(s, 1 + |text|)
  {
    var k := 1 + |text|;
    var rest := "*" + [hi, lo] + tail;
    assert s == "$" + text + rest;
    ChecksumIsParity(text, rest);
    ParityIsUnique(n, ChecksumOf(s), text);
    HexIs(hi, n / 16);
    HexIs(lo, n % 16);
    hide ChecksumOf, Hex2Int, IsParity, IsHex;
    assert s[k + 3..] == tail;
    assert forall j :: 1 <= j < k ==> s[j] == text[j - 1];
  }

  /** A checksummed sentence that is accepted is one. */
  lemma CheckedIsSentence(s: string, k: nat)
    requires IsChecked(s, k)
    ensures IsSentence(s, s[1..k], ChecksumOf(s), s[k + 1], s[k + 2], s[k + 3..])
  {
    var text, hi, lo, tail, n := s[1..k], s[k + 1], s[k + 2], s[k + 3..], ChecksumOf(s);
    Cut(s, k);
    CutMark(s[k..], tail);
    HexIs(hi, n / 16);
    HexIs(lo, n % 16);
    assert '*' !in text && IsText(text);
    hide Hex2Int, IsParity, IsHex, ChecksumOf;
    ChecksumIsParity(text, s[k..]);
  }

  lemma Cut(s: string, k: nat)
    requires 1 <= k <= |s| && s[0] == '$'
    ensures s == "$" + s[1..k] + s[k..]
  {
    assert s == s[..1] + s[1..k] + s[k..];
  }

  lemma CutMark(t: string, tail: string)
    requires 3 <= |t| && t[0] == '*' && tail == t[3..]
    ensures t == "*" + [t[1], t[2]] + tail
  {
  }

  lemma BareIsUnchecked(s: string, text: string, tail: string)
    requires IsBareSentence(s, text, tail)
    ensures IsUnchecked(s, 1 + |text|)
  {
    var k := 1 + |text|;
    assert s[k..] == tail;
    assert forall j :: 1 <= j < k ==> s[j] == text[j - 1];
  }

  lemma UncheckedIsBare(s: string, k: nat)
    requires IsUnchecked(s, k)
    ensures IsBareSentence(s, s[1..k], s[k..])
  {
    Cut(s, k);
  }

  /** Whatever sentence is written so is accepted, and strictly if it has its checksum. */
  method CheckWritten(text: string, n: nat, hi: char, lo: char, tail: string, strict: bool) returns (ok: bool)
    requires IsSentence("$" + text + "*" + [hi, lo] + tail, text, n, hi, lo, tail)
    ensures ok
  {
    hide IsSentence, IsChecked;
    var s := "$" + text + "*" + [hi, lo] + tail;
    SentenceIsChecked(s, text, n, hi, lo, tail);
    WrittenIsNulFree(s, text, n, hi, lo, tail);
    ok := Check(s, strict);
  }

  lemma WrittenIsNulFree(s: string, text: string, n: nat, hi: char, lo: char, tail: string)
    requires IsSentence(s, text, n, hi, lo, tail)
    ensures NulFree(s)
  {
    HexIs(hi, n / 16);
    HexIs(lo, n % 16);
    hide IsParity, IsHex;
  }

  // ---------- one wrong character ----------

  lemma {:induction false} XorIsBelow(a: nat, b: nat, n: nat)
    ensures Xor(a, b, n) < Machine.Pow2(n)
  {
    if n > 0 {
      XorIsBelow(a / 2, b / 2, n - 1);
    }
  }

  lemma {:induction false} XorIsInjective(a: nat, b: nat, c: nat, n: nat)
    requires b < Machine.Pow2(n) && c < Machine.Pow2(n) && b != c
    ensures Xor(a, b, n) != Xor(a, c, n) && Xor(b, a, n) != Xor(c, a, n)
  {
    if b / 2 != c / 2 {
      XorIsInjective(a / 2, b / 2, c / 2, n - 1);
    }
  }

  lemma EightBits()
    ensures Machine.Pow2(8) == 256
  {
    assert Machine.Pow2(4) == 2 * (2 * (2 * (2 * Machine.Pow2(0))));
    assert Machine.Pow2(8) == 2 * (2 * (2 * (2 * Machine.Pow2(4))));
  }

  lemma XorOfIsByte(s: string, i: nat, j: nat)
    requires i <= j <= |s|
    ensures XorOf(s, i, j) < 256
  {
    EightBits();
    if i < j {
      XorIsBelow(XorOf(s, i, j - 1), Byte(s[j - 1]), 8);
    }
  }

  /** Changing one byte changes the checksum of every stretch that holds it. */
  lemma {:induction false} OneByteChangesXor(s: string, s': string, p: nat, i: nat, j: nat)
    requires i <= p < j <= |s| == |s'| && Byte(s[p]) != Byte(s'[p])
    requires forall q :: i <= q < j && q != p ==> s[q] == s'[q]
    ensures XorOf(s, i, j) != XorOf(s', i, j)
  {
    hide Byte, Xor;
    EightBits();
    if j - 1 == p {
      SameXor(s, s', i, p);
      XorIsInjective(XorOf(s, i, p), Byte(s[p]), Byte(s'[p]), 8);
    } else {
      OneByteChangesXor(s, s', p, i, j - 1);
      XorOfIsByte(s, i, j - 1);
      XorOfIsByte(s', i, j - 1);
      XorIsInjective(Byte(s[j - 1]), XorOf(s, i, j - 1), XorOf(s', i, j - 1), 8);
    }
  }

  lemma {:induction false} SameXor(s: string, s': string, i: nat, j: nat)
    requires i <= j <= |s| == |s'| && forall q :: i <= q < j ==> s[q] == s'[q]
    ensures XorOf(s, i, j) == XorOf(s', i, j)
  {
    if i < j {
      SameXor(s, s', i, j - 1);
    }
  }

  lemma StarIs(s: string, i: nat, k: nat)
    requires i <= k < |s| && s[k] == '*' && forall j :: i <= j < k ==> s[j] != '*'
    ensures Star(s, i) == k
  {
  }

  lemma ChecksumChanges(s: string, k: nat, p: nat, c: char)
    requires 1 <= p < k < |s| && s[0] == '$' && IsBody(s, k) && s[k] == '*' && IsPrint(c) && c != '*' && c != s[p]
    ensures ChecksumOf(s[p := c]) != ChecksumOf(s)
  {
    hide XorOf;
    var s' := s[p := c];
    StarIs(s, 1, k);
    StarIs(s', 1, k);
    OneByteChangesXor(s, s', p, 1, k);
  }

  lemma StarIsUnique(s: string, k: nat, k': nat)
    requires IsChecked(s, k') && IsBody(s, k) && k < |s| && s[k] == '*'
    ensures k' == k
  {
  }

  /** Any single character of the body replaced by another printable one makes an accepted sentence rejected, strict or not. */
  lemma OneWrongCharacterIsDetected(s: string, k: nat, p: nat, c: char)
    requires IsChecked(s, k) && 1 <= p < k && IsPrint(c) && c != '*' && c != s[p]
    ensures var s' := s[p := c]; forall k': nat {:trigger IsChecked(s', k')} {:trigger IsUnchecked(s', k')} ::
              !IsChecked(s', k') && !IsUnchecked(s', k')
  {
    var s' := s[p := c];
    ChecksumChanges(s, k, p, c);
    hide ChecksumOf, IsTail, IsPrint, IsUnchecked;
    forall k': nat {:trigger IsChecked(s', k')}
      ensures !IsChecked(s', k') && !IsUnchecked(s', k')
    {
      StarIsNoEnd(s', k, k');
      if IsChecked(s', k') {
        StarIsUnique(s', k, k');
      }
    }
  }

  lemma StarIsNoEnd(s: string, k: nat, k': nat)
    requires 1 <= k < |s| && IsBody(s, k) && s[k] == '*'
    ensures !IsUnchecked(s, k')
  {
    if 1 <= k' <= |s| {
      var t := s[k'..];
      assert t != "" ==> t[0] == s[k'];
    }
  }

  // ---------- rescaling ----------

  /** C's division by a positive number, which truncates towards zero. */
  function TruncDiv(a: int, b: int): int
    requires b > 0
  {
    if a >= 0 || a % b == 0 then a / b else a / b + 1
  }

  /** The sign of x, as (x > 0) - (x < 0). */
  function Sign(x: int): int {
    if x > 0 then 1 else if x < 0 then -1 else 0
  }

  /** A fixed-point value moved to another scale; scale 0 means there is no value. */
  function Rescale(value: int, scale: int, newScale: int): (r: int)
    requires 0 <= scale && 0 < newScale
    ensures scale == 0 ==> r == 0
    ensures scale == newScale ==> r == value
  {
    if scale == 0 then 0
    else if scale == newScale then value
    else if scale > newScale then TruncDiv(value + TruncDiv(TruncDiv(Sign(value) * scale, newScale), 2), TruncDiv(scale, newScale))
    else value * TruncDiv(newScale, scale)
  }

  lemma MulStep(r: int, a: int, b: int)
    requires 0 < r && a < b
    ensures r * a + r <= r * b
  {
    var d := b - a - 1;
    assert r * b == r * a + r + r * d;
    assert 0 <= r * d;
  }

  lemma DivIs(x: int, r: int, q: int, m: int)
    requires x == r * q + m && 0 <= m < r
    ensures x / r == q && x % r == m
  {
    var q', m' := x / r, x % r;
    assert x == r * q' + m';
    if q' < q { MulStep(r, q', q); }
    if q < q' { MulStep(r, q, q'); }
  }

  lemma {:induction false} PowersDivide(a: nat, b: nat)
    requires b < a
    ensures Pow10(a) == Pow10(b) * Pow10(a - b) && Pow10(b) < Pow10(a)
    ensures Pow10(a - b) % 2 == 0 && 10 <= Pow10(a - b)
  {
    Pow10Adds(b, a - b);
    assert Pow10(a - b) == 10 * Pow10(a - b - 1);
    MulStep(Pow10(b), 1, Pow10(a - b));
  }

  /** C's division in terms of the Euclidean one on magnitudes. */
  lemma TruncDivSymmetric(x: int, r: int)
    requires 0 < r
    ensures TruncDiv(x, r) == if x >= 0 then x / r else -((-x) / r)
  {
    if x < 0 {
      var q, m := (-x) / r, (-x) % r;
      assert -x == r * q + m;
      if m == 0 {
        NegateProduct(r, q);
        DivIs(x, r, -q, 0);
      } else {
        NegateProduct(r, q + 1);
        assert r * (q + 1) == r * q + r;
        DivIs(x, r, -(q + 1), r - m);
      }
    }
  }

  lemma NegateProduct(r: int, q: int)
    ensures r * (-q) == -(r * q)
  {
  }

  lemma DivOfProduct(b: int, r: int, s: int)
    requires 0 < b && 0 < r && -1 <= s <= 1
    ensures TruncDiv(b * r, b) == r && TruncDiv(s * (b * r), b) == s * r
  {
    hide TruncDiv;
    assert 0 < b * r;
    DivIs(b * r, b, r, 0);
    TruncDivSymmetric(b * r, b);
    TruncDivSymmetric(-(b * r), b);
    TruncDivSymmetric(0, b);
    assert 0 / b == 0;
    assert s == 1 || s == 0 || s == -1;
  }

  function Abs(x: int): nat {
    if x >= 0 then x else -x
  }

  /** Rounding half away from zero: q * r is within half of r from v, the outward half included, and on v's side of zero. */
  ghost predicate RoundsHalfAway(v: int, r: int, q: int) {
    2 * Abs(v) - r < 2 * (r * Abs(q)) <= 2 * Abs(v) + r && (0 < q ==> 0 < v) && (q < 0 ==> v < 0)
  }

  lemma RoundUnsigned(v: nat, r: nat)
    requires 10 <= r && r % 2 == 0
    ensures var q := (v + r / 2) / r; 0 <= q && 2 * v - r < 2 * (r * q) <= 2 * v + r && (v == 0 ==> q == 0)
  {
    var x := v + r / 2;
    assert x == r * (x / r) + x % r;
    if v == 0 { DivIs(x, r, 0, r / 2); }
  }

  /**
   * Scaling down between powers of ten rounds to the nearest value and ties away from zero, although the header's comment
   * says towards zero. The sum inside must stay within 32 bits for the C code to compute this.
   */
  lemma ScalingDownRoundsHalfAway(v: int, a: nat, b: nat)
    requires b < a
    ensures RoundsHalfAway(v, Pow10(a - b), Rescale(v, Pow10(a), Pow10(b)))
  {
    PowersDivide(a, b);
    var r := Pow10(a - b);
    RescaledDown(v, Pow10(a), Pow10(b), r);
    RoundUnsigned(Abs(v), r);
    WithSign(v, r, (Abs(v) + r / 2) / r);
  }

  lemma WithSign(v: int, r: int, q: nat)
    requires 2 * Abs(v) - r < 2 * (r * q) <= 2 * Abs(v) + r && (v == 0 ==> q == 0)
    ensures RoundsHalfAway(v, r, Sign(v) * q)
  {
  }

  lemma RescaledDown(v: int, scale: int, newScale: int, r: int)
    requires 0 < newScale < scale && scale == newScale * r && 10 <= r && r % 2 == 0
    ensures Rescale(v, scale, newScale) == Sign(v) * ((Abs(v) + r / 2) / r)
  {
    hide TruncDiv;
    DivOfProduct(newScale, r, Sign(v));
    TruncDivSymmetric(Sign(v) * r, 2);
    assert TruncDiv(Sign(v) * r, 2) == Sign(v) * (r / 2);
    TruncDivSymmetric(v + Sign(v) * (r / 2), r);
    assert v == 0 ==> 0 / r == 0;
  }

  /** Scaling up is exact, and scaling back down is the identity. */
  lemma UpThenDownIsIdentity(v: int, a: nat, b: nat)
    requires b < a
    ensures Rescale(v, Pow10(b), Pow10(a)) == v * Pow10(a - b)
    ensures Rescale(Rescale(v, Pow10(b), Pow10(a)), Pow10(a), Pow10(b)) == v
  {
    PowersDivide(a, b);
    var r := Pow10(a - b);
    DivOfProduct(Pow10(b), r, 1);
    var q := Rescale(v * r, Pow10(a), Pow10(b));
    ScalingDownRoundsHalfAway(v * r, a, b);
    hide Rescale, Pow10;
    NearestToMultiple(v, r, q);
  }

  lemma NearestToMultiple(v: int, r: int, q: int)
    requires 10 <= r && RoundsHalfAway(v * r, r, q)
    ensures q == v
  {
    var w, u := Abs(q), Abs(v);
    AbsOfProduct(v, r);
    if w < u { MulStep(r, w, u); }
    if u < w { MulStep(r, u, w); }
  }

  lemma AbsOfProduct(v: int, r: int)
    requires 0 < r
    ensures Abs(v * r) == r * Abs(v) && (0 < v * r <==> 0 < v) && (v * r < 0 <==> v < 0)
  {
    if v < 0 {
      NegateProduct(r, v);
      MulStep(r, 0, -v);
    } else if 0 < v {
      MulStep(r, 0, v);
    }
  }
}
