/** The Modbus driver around its CRC: the request it frames and the replies it accepts. */
module ModbusDriver {

  import opened ModbusCrc
  import opened Words

  const READ_REGISTERS: Octet := 0x03
  const REQUEST_LEN := 8
  const READ_BUFF_LEN := 100

  method ShiftOnce(crc: bv16) returns (r: bv16)
    ensures r == Shift(crc)
  {
    r := crc;
    if r & 0x0001 != 0 {
      r := r >> 1;
      r := r ^ 0xA001;
    } else {
      r := r >> 1;
    }
  }

  method CalculateCrc(buf: array<Octet>, len: nat) returns (crc: bv16)
    requires len <= buf.Length
    ensures crc == Crc(buf[..], len)
  {
    hide Xor, Widen, Shift;
    crc := 0xFFFF;
    var pos := 0;
    while pos < len
      invariant pos <= len && crc == Crc(buf[..], pos)
    {
      ghost var first := Xor(crc, Widen(buf[pos]));
      crc := Xor(crc, Widen(buf[pos]));
      var i := 8;
      while i != 0
        invariant 0 <= i <= 8 && crc == Times(first, 8 - i)
        decreases i
      {
        crc := ShiftOnce(crc);
        i := i - 1;
      }
      pos := pos + 1;
    }
  }

  lemma BigEndianOfHalves(x: bv16)
    ensures BigEndian(High(x), Low(x)) == x
  {
  }

  lemma SameNumber(a: bv16, b: bv16)
    requires Number(a) == Number(b)
    ensures a == b
  {
    hide High, Low, BigEndian;
    HalvesAre(a);
    HalvesAre(b);
    SameByteNumber(High(a), High(b));
    SameByteNumber(Low(a), Low(b));
    BigEndianOfHalves(a);
    BigEndianOfHalves(b);
  }

  lemma SumIsBigEndian(hi: Octet, lo: Octet)
    ensures Widen(lo) + Widen(hi) * 256 == BigEndian(hi, lo)
  {
  }

  /** The request on the line: the slave reads back what was asked for, and its CRC check passes. */
  method BuildRequest(slave: Octet, register: bv16, quantity: bv16) returns (buff: array<Octet>)
    ensures fresh(buff) && buff.Length == 8 && buff[0] == slave && buff[1] == 3
    ensures buff[2] as int == (register as int) / 256 && buff[3] as int == (register as int) % 256
    ensures buff[4] as int == (quantity as int) / 256 && buff[5] as int == (quantity as int) % 256
    ensures buff[6] as int == (Crc(buff[..], 6) as int) % 256 && buff[7] as int == (Crc(buff[..], 6) as int) / 256
    ensures Crc(buff[..], 8) == 0
  {
    hide Crc, BigEndian, High, Low;
    buff := new Octet[REQUEST_LEN](_ => 0);
    buff[0] := slave;
    buff[1] := READ_REGISTERS;
    buff[2] := High(register);
    buff[3] := Low(register);
    buff[4] := High(quantity);
    buff[5] := Low(quantity);
    HalvesAre(register);
    HalvesAre(quantity);
    AppendCrc(buff, 6);
    HalvesAre(Crc(buff[..], 6));
  }

  /** Puts the CRC of the first len bytes behind them, low byte first. */
  method AppendCrc(buff: array<Octet>, len: nat)
    requires len + 2 == buff.Length
    modifies buff
    ensures Crc(buff[..], buff.Length) == 0
    ensures buff[len] == Low(Crc(buff[..], len)) && buff[len + 1] == High(Crc(buff[..], len))
    ensures forall i :: 0 <= i < len ==> buff[i] == old(buff[i])
  {
    hide Crc, High, Low;
    var crc := CalculateCrc(buff, len);
    ghost var before := buff[..len];
    assert buff[..][..len] == before[..len];
    SamePrefix(buff[..], before, len);
    buff[len] := Low(crc);
    buff[len + 1] := High(crc);
    assert buff[..] == before + [Low(crc), High(crc)];
    ResidueIsZeroIff(before, Low(crc), High(crc));
    assert buff[..][..len] == before[..len];
    SamePrefix(buff[..], before, len);
  }

  // ---------- replies ----------

  /** How many bytes of register values a reply announces. */
  function Announced(buffer: seq<Octet>): nat
    requires |buffer| > 2
  {
    buffer[2] as nat
  }

  /** The zeroed read buffer once a reply has been read into it. */
  function Received(reply: seq<Octet>): (buffer: seq<Octet>)
    requires |reply| <= READ_BUFF_LEN
    ensures |buffer| == READ_BUFF_LEN
  {
    reply + seq(READ_BUFF_LEN - |reply|, _ => 0)
  }

  /** The check: the two bytes after the announced ones are the CRC of all before them. */
  predicate Accepted(buffer: seq<Octet>)
    requires |buffer| > 2 && Announced(buffer) + 5 <= |buffer|
  {
    Crc(buffer, Announced(buffer) + 5) == 0
  }

  /** Register i of a reply, its high byte first. */
  function Register(buffer: seq<Octet>, i: nat): int
    requires 2 * i + 4 < |buffer|
  {
    256 * ByteNumber(buffer[2 * i + 3]) + ByteNumber(buffer[2 * i + 4])
  }

  /** Decodes a reply and compares its CRC, which is sent low byte first; 0 is success. */
  method ReadReply(buffer: array<Octet>, data: array<bv16>) returns (status: int)
    requires buffer.Length == READ_BUFF_LEN && Announced(buffer[..]) + 5 <= READ_BUFF_LEN
    requires Announced(buffer[..]) / 2 <= data.Length
    modifies data
    ensures status == if Accepted(buffer[..]) then 0 else 1
    ensures var n := buffer[2] as int;
            status == 0 <==> Crc(buffer[..], 3 + n) as int == buffer[3 + n] as int + 256 * (buffer[4 + n] as int)
    ensures forall i: nat :: i < data.Length ==>
              if i < buffer[2] as int / 2
              then data[i] as int == 256 * (buffer[2 * i + 3] as int) + (buffer[2 * i + 4] as int)
              else data[i] == old(data[i])
  {
    hide BigEndian, Crc, High, Low, Number, ByteNumber;
    var n: nat := Announced(buffer[..]);
    status := CheckReply(buffer);
    AcceptedInNumbers(buffer[..], n, Crc(buffer[..], n + 3), buffer[n + 3], buffer[n + 4]);
    DecodeRegisters(buffer, data, n);
  }

  /** The CRC behind the announced bytes against the one computed; 0 says that they agree. */
  method CheckReply(buffer: array<Octet>) returns (status: int)
    requires buffer.Length == READ_BUFF_LEN && Announced(buffer[..]) + 5 <= READ_BUFF_LEN
    ensures status == if Accepted(buffer[..]) then 0 else 1
  {
    hide BigEndian, Crc, High, Low, Number, ByteNumber;
    var bytesRead: nat := Announced(buffer[..]);
    var responseLen := 3 + bytesRead;
    var crc := CalculateCrc(buffer, responseLen);
    var responseCrc := BigEndian(buffer[responseLen + 1], buffer[responseLen]);
    status := if responseCrc != crc then 1 else 0;
    AcceptedIffCrcFollows(buffer[..], responseLen);
  }

  lemma AcceptedInNumbers(buffer: seq<Octet>, n: nat, crc: bv16, lo: Octet, hi: Octet)
    requires n + 4 < |buffer| && n == Announced(buffer)
    requires crc == Crc(buffer, n + 3) && lo == buffer[n + 3] && hi == buffer[n + 4]
    ensures Accepted(buffer) <==> crc as int == lo as int + 256 * (hi as int)
  {
    hide BigEndian, Crc, High, Low, Number, ByteNumber;
    AcceptedIffCrcFollows(buffer, n + 3);
    SameCrc(crc, hi, lo);
  }

  /** The loop over the registers. */
  method DecodeRegisters(buffer: array<Octet>, data: array<bv16>, bytesRead: nat)
    requires bytesRead + 5 <= buffer.Length && bytesRead / 2 <= data.Length
    modifies data
    ensures forall k: nat :: k < data.Length ==>
              if k < bytesRead / 2 then data[k] as int == 256 * (buffer[2 * k + 3] as int) + (buffer[2 * k + 4] as int)
              else data[k] == old(data[k])
  {
    hide Number, ByteNumber;
    var i: nat := 0;
    while i < bytesRead / 2
      invariant i <= bytesRead / 2
      invariant forall k: nat :: k < data.Length ==>
                  if k < i then data[k] as int == 256 * (buffer[2 * k + 3] as int) + (buffer[2 * k + 4] as int)
                  else data[k] == old(data[k])
    {
      data[i] := JoinBytes(buffer[3 + i * 2], buffer[3 + i * 2 + 1]);
      i := i + 1;
    }
  }

  /** lo + hi * 256, in sixteen bits. */
  method JoinBytes(hi: Octet, lo: Octet) returns (x: bv16)
    ensures x as int == 256 * (hi as int) + (lo as int)
  {
    hide Number, ByteNumber, BigEndian;
    x := Widen(lo) + Widen(hi) * 256;
    SumIsBigEndian(hi, lo);
    BigEndianIsSum(hi, lo);
  }

  lemma SameCrc(crc: bv16, hi: Octet, lo: Octet)
    ensures crc == BigEndian(hi, lo) <==> crc as int == lo as int + 256 * (hi as int)
  {
    hide BigEndian, Number, ByteNumber;
    BigEndianIsSum(hi, lo);
    if Number(crc) == Number(BigEndian(hi, lo)) {
      SameNumber(crc, BigEndian(hi, lo));
    }
  }

  lemma AcceptedIffCrcFollows(buffer: seq<Octet>, len: nat)
    requires len + 2 <= |buffer|
    ensures Crc(buffer, len + 2) == 0 <==> Crc(buffer, len) == BigEndian(buffer[len + 1], buffer[len])
  {
    hide Crc, High, Low, BigEndian;
    var m, lo, hi := buffer[..len], buffer[len], buffer[len + 1];
    SamePrefix(buffer, m, len);
    assert buffer[..len + 2] == m + [lo, hi] == (m + [lo, hi])[..len + 2];
    SamePrefix(buffer, m + [lo, hi], len + 2);
    ResidueIsZeroIff(m, lo, hi);
    BigEndianIff(Crc(m, len), hi, lo);
  }

  lemma BigEndianIff(c: bv16, hi: Octet, lo: Octet)
    ensures c == BigEndian(hi, lo) <==> lo == Low(c) && hi == High(c)
  {
    hide BigEndian, High, Low;
    BigEndianOfHalves(c);
    HalvesOfBigEndian(hi, lo);
  }

  lemma HalvesOfBigEndian(hi: Octet, lo: Octet)
    ensures High(BigEndian(hi, lo)) == hi && Low(BigEndian(hi, lo)) == lo
  {
  }

  /** What a slave sends for these registers: each high byte first, then the CRC of all that, low byte first. */
  ghost predicate IsReply(frame: seq<Octet>, regs: seq<bv16>) {
    && |frame| == 2 * |regs| + 5 <= READ_BUFF_LEN
    && Announced(frame) == 2 * |regs|
    && (forall i: nat :: i < |regs| ==> Register(frame, i) == Number(regs[i]))
    && Crc(frame, |frame|) == 0
  }

  /** A correct reply is accepted and its registers come out in order. */
  lemma ReplyIsRead(frame: seq<Octet>, regs: seq<bv16>)
    requires IsReply(frame, regs)
    ensures var buffer := Received(frame);
            && Announced(buffer) == 2 * |regs| && Accepted(buffer)
            && forall i: nat :: i < |regs| ==> Register(buffer, i) == Number(regs[i])
  {
    var buffer := Received(frame);
    assert buffer[..|frame|] == frame[..|frame|];
    SamePrefix(buffer, frame, |frame|);
    hide Crc;
    forall i: nat | i < |regs|
      ensures Register(buffer, i) == Number(regs[i])
    {
      assert Register(frame, i) == Number(regs[i]);
    }
  }

  // ---------- a slave that answers ----------

  /** The bytes of the first n registers: quotient and remainder by 256. */
  function RegisterBytes(regs: seq<bv16>, n: nat): (bytes: seq<Octet>)
    requires n <= |regs|
    ensures |bytes| == 2 * n
  {
    if n == 0 then []
    else RegisterBytes(regs, n - 1) + [Quotient(regs[n - 1]), Remainder(regs[n - 1])]
  }

  function Quotient(x: bv16): (b: Octet)
    ensures b as int == (x as int) / 256
  {
    HalvesAre(x);
    ByteOf(Number(x) / 256)
  }

  function Remainder(x: bv16): (b: Octet)
    ensures b as int == (x as int) % 256
  {
    ByteOf(Number(x) % 256)
  }

  /** A message and its CRC, low byte first. */
  function WithCrc(m: seq<Octet>): seq<Octet> {
    m + [Remainder(Crc(m, |m|)), Quotient(Crc(m, |m|))]
  }

  /** Address, function code, byte count, registers and CRC. */
  function Reply(slave: Octet, regs: seq<bv16>): seq<Octet>
    requires 2 * |regs| + 5 <= READ_BUFF_LEN
  {
    WithCrc([slave, 3, ByteOf(2 * |regs|)] + RegisterBytes(regs, |regs|))
  }

  lemma {:induction false} RegisterByteAt(regs: seq<bv16>, n: nat, i: nat)
    requires i < n <= |regs|
    ensures RegisterBytes(regs, n)[2 * i] == Quotient(regs[i]) && RegisterBytes(regs, n)[2 * i + 1] == Remainder(regs[i])
  {
    hide Quotient, Remainder;
    if i < n - 1 {
      RegisterByteAt(regs, n - 1, i);
    }
  }

  lemma QuotientIsHigh(x: bv16)
    ensures Quotient(x) == High(x) && Remainder(x) == Low(x)
    ensures 256 * ByteNumber(Quotient(x)) + ByteNumber(Remainder(x)) == Number(x)
  {
    hide High, Low, Quotient, Remainder;
    HalvesAre(x);
    NumberOfHalves(x);
    SameByteNumber(Quotient(x), High(x));
    SameByteNumber(Remainder(x), Low(x));
  }

  lemma WithCrcIsAccepted(m: seq<Octet>)
    ensures |WithCrc(m)| == |m| + 2 && Crc(WithCrc(m), |m| + 2) == 0
  {
    hide Crc, High, Low, Quotient, Remainder;
    QuotientIsHigh(Crc(m, |m|));
    ResidueIsZeroIff(m, Low(Crc(m, |m|)), High(Crc(m, |m|)));
  }

  lemma RegisterOf(frame: seq<Octet>, regs: seq<bv16>, head: seq<Octet>, tail: seq<Octet>, i: nat)
    requires |head| == 3 && frame == head + RegisterBytes(regs, |regs|) + tail && i < |regs|
    ensures 2 * i + 4 < |frame| && Register(frame, i) == Number(regs[i])
  {
    hide RegisterBytes, Quotient, Remainder, Number, ByteNumber;
    RegisterByteAt(regs, |regs|, i);
    QuotientIsHigh(regs[i]);
    var bytes := RegisterBytes(regs, |regs|);
    assert frame[2 * i + 3] == bytes[2 * i] && frame[2 * i + 4] == bytes[2 * i + 1];
  }

  lemma BuiltReplyIsReply(slave: Octet, regs: seq<bv16>)
    requires 2 * |regs| + 5 <= READ_BUFF_LEN
    ensures IsReply(Reply(slave, regs), regs)
  {
    hide Crc, RegisterBytes, Quotient, Remainder, Number, ByteNumber, Register;
    var head := [slave, 3, ByteOf(2 * |regs|)];
    var m, frame := head + RegisterBytes(regs, |regs|), Reply(slave, regs);
    WithCrcIsAccepted(m);
    hide ByteOf;
    forall i: nat | i < |regs|
      ensures Register(frame, i) == Number(regs[i])
    {
      RegisterOf(frame, regs, head, frame[|m|..], i);
    }
  }

  /** A slave's reply, read into the zeroed buffer and decoded: success, and the registers are the slave's. */
  method ReadFromSlave(slave: Octet, regs: seq<bv16>, data: array<bv16>) returns (status: int)
    requires 2 * |regs| + 5 <= READ_BUFF_LEN && |regs| <= data.Length
    modifies data
    ensures status == 0 && data[..|regs|] == regs && data[|regs|..] == old(data[|regs|..])
  {
    hide Crc, Reply;
    BuiltReplyIsReply(slave, regs);
    ReplyIsRead(Reply(slave, regs), regs);
    var received := Received(Reply(slave, regs));
    var buffer := new Octet[READ_BUFF_LEN](i requires 0 <= i < |received| => received[i]);
    assert buffer[..] == received;
    status := ReadReply(buffer, data);
    forall i | 0 <= i < |regs|
      ensures data[i] == regs[i]
    {
      assert Register(received, i) == Number(regs[i]);
      SameNumber(data[i], regs[i]);
    }
  }

  /** A correct reply spoilt by one burst of at most sixteen bits is refused, as long as its byte count survives. */
  lemma SpoiltReplyIsRefused(frame: seq<Octet>, regs: seq<bv16>, spoilt: seq<Octet>, q: nat)
    requires IsReply(frame, regs) && |spoilt| == |frame| && spoilt != frame && Within(frame, spoilt, q)
    requires spoilt[2] == frame[2]
    ensures Announced(Received(spoilt)) == 2 * |regs| && !Accepted(Received(spoilt))
  {
    hide Crc, Within;
    var buffer := Received(spoilt);
    assert buffer[..|frame|] == spoilt[..|frame|];
    SamePrefix(buffer, spoilt, |frame|);
    BurstIsDetected(frame, spoilt, q);
  }

  /** Silence on the line is refused. */
  lemma SilenceIsRefused()
    ensures Announced(Received([])) == 0 && !Accepted(Received([]))
  {
    hide Crc;
    var buffer := Received([]);
    assert forall k :: 0 <= k < 5 ==> buffer[k] == 0;
    ZerosKeepNonzero(buffer, 5);
  }

  lemma {:induction false} ZerosKeepNonzero(m: seq<Octet>, n: nat)
    requires n <= |m| && forall k :: 0 <= k < n ==> m[k] == 0
    ensures Crc(m, n) != 0
  {
    if n > 0 {
      ZerosKeepNonzero(m, n - 1);
      hide Shift, Xor, Times;
      XorZero(Crc(m, n - 1));
      TimesKeepsNonzero(Crc(m, n - 1), 8);
      assert Widen(m[n - 1]) == 0;
    }
  }

  /** An error confined to two adjacent bytes is a burst of sixteen bits. */
  lemma AdjacentBytesAreABurst(a: seq<Octet>, b: seq<Octet>, i: nat)
    requires |a| == |b| && a != b && forall k :: 0 <= k < |a| && k != i && k != i + 1 ==> a[k] == b[k]
    ensures Within(a, b, 8 * i) && Crc(a, |a|) != Crc(b, |b|)
  {
    forall k: nat | k < 8 * |a| && !SameBit(a, b, k)
      ensures 8 * i <= k < 8 * i + 16
    {
      assert k / 8 == i || k / 8 == i + 1;
    }
    BurstIsDetected(a, b, 8 * i);
  }
}
