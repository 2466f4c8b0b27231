/** The commands a vehicle supports: counted by a bit trick, listed by another loop, and why the two agree. */
module ObdCommands {

  import opened Machine

  // ---------- bits ----------

  lemma SomePowers()
    ensures Pow2(18) == 0x4_0000 && Pow2(29) == 0x2000_0000 && Pow2(32) == 0x1_0000_0000
  {
    assert Pow2(2) == 0x4;
    assert Pow2(4) == 0x10;
    assert Pow2(6) == 0x40;
    assert Pow2(8) == 0x100;
    assert Pow2(10) == 0x400;
    assert Pow2(12) == 0x1000;
    assert Pow2(14) == 0x4000;
    assert Pow2(16) == 0x10000;
    assert Pow2(18) == 0x40000;
    assert Pow2(20) == 0x100000;
    assert Pow2(22) == 0x400000;
    assert Pow2(24) == 0x1000000;
    assert Pow2(26) == 0x4000000;
    assert Pow2(28) == 0x10000000;
    assert Pow2(30) == 0x40000000;
  }

  /** The & of C. */
  function And(a: nat, b: nat): (r: nat)
    ensures r <= a
  {
    if a == 0 || b == 0 then 0
    else 2 * And(a / 2, b / 2) + if a % 2 == 1 && b % 2 == 1 then 1 else 0
  }

  lemma {:induction false} NoBitOfZero(k: nat)
    ensures !Bit(0, k)
  {
    if k > 0 {
      NoBitOfZero(k - 1);
    }
  }

  lemma {:induction false} BitOfAnd(a: nat, b: nat, k: nat)
    ensures Bit(And(a, b), k) <==> Bit(a, k) && Bit(b, k)
  {
    if a == 0 || b == 0 {
      NoBitOfZero(k);
    } else if k > 0 {
      BitOfAnd(a / 2, b / 2, k - 1);
      assert And(a, b) / 2 == And(a / 2, b / 2);
    }
  }

  /** Testing w & (1 << n) looks at bit n. */
  lemma {:induction false} TestBit(w: nat, n: nat)
    ensures And(w, Pow2(n)) != 0 <==> Bit(w, n)
  {
    if w == 0 {
      NoBitOfZero(n);
    } else if n == 0 {
      assert And(w / 2, 0) == 0;
    } else {
      TestBit(w / 2, n - 1);
    }
  }

  /** A mask of ones from bit m up to bit n. */
  lemma {:induction false} BitOfHighMask(n: nat, m: nat, k: nat)
    requires m <= n
    ensures Pow2(m) <= Pow2(n)
    ensures Bit(Pow2(n) - Pow2(m), k) <==> m <= k < n
    decreases n
  {
    if n == 0 || m == n {
      NoBitOfZero(k);
    } else {
      var m' := if m == 0 then 0 else m - 1;
      BitOfHighMask(n - 1, m', if k == 0 then 0 else k - 1);
      assert (Pow2(n) - Pow2(m)) / 2 == Pow2(n - 1) - Pow2(m');
    }
  }

  /** How many bits of a word are set. */
  function Pop(w: nat): nat {
    if w == 0 then 0 else w % 2 + Pop(w / 2)
  }

  lemma AndWithItself(w: nat)
    ensures And(w, w) == w
  {
  }

  /** Clearing the lowest set bit. */
  lemma {:induction false} ClearsOneBit(w: nat)
    requires w > 0
    ensures And(w, w - 1) < w
    ensures Pop(And(w, w - 1)) == Pop(w) - 1
  {
    if w % 2 == 1 {
      AndWithItself(w / 2);
      assert And(w, w - 1) == 2 * (w / 2);
    } else {
      ClearsOneBit(w / 2);
      assert (w - 1) / 2 == w / 2 - 1;
      assert And(w, w - 1) == 2 * And(w / 2, w / 2 - 1);
      var half := And(w / 2, w / 2 - 1);
      assert Pop(2 * half) == Pop(half);
    }
  }

  method BitsSet(word: UInt32) returns (c: nat)
    ensures c == Pop(word) == CountLow(word, 32)
  {
    var w: nat := word;
    c := 0;
    while w != 0
      invariant c + Pop(w) == Pop(word)
      decreases w
    {
      ClearsOneBit(w);
      w := And(w, w - 1);
      c := c + 1;
    }
    SomePowers();
    PopIsCount(word, 32);
  }

  function BitAt(w: nat, k: nat): nat {
    if Bit(w, k) then 1 else 0
  }

  /** How many of bits 0 to m - 1 are set. */
  function CountLow(w: nat, m: nat): nat {
    if m == 0 then 0 else CountLow(w, m - 1) + BitAt(w, m - 1)
  }

  /** How many of the n highest bits of a 32-bit word are set. */
  function CountHigh(w: nat, n: nat): nat
    requires n <= 32
  {
    if n == 0 then 0 else CountHigh(w, n - 1) + BitAt(w, 32 - n)
  }

  lemma {:induction false} CountLowShift(w: nat, m: nat)
    requires m > 0
    ensures CountLow(w, m) == w % 2 + CountLow(w / 2, m - 1)
  {
    if m > 1 {
      CountLowShift(w, m - 1);
    }
  }

  lemma {:induction false} PopIsCount(w: nat, m: nat)
    requires w < Pow2(m)
    ensures Pop(w) == CountLow(w, m)
  {
    if m > 0 {
      PopIsCount(w / 2, m - 1);
      CountLowShift(w, m);
    }
  }

  lemma {:induction false} HighAndLow(w: UInt32, n: nat)
    requires n <= 32
    ensures Pop(w) == CountLow(w, 32 - n) + CountHigh(w, n)
  {
    if n == 0 {
      SomePowers();
      PopIsCount(w, 32);
    } else {
      HighAndLow(w, n - 1);
    }
  }

  lemma {:induction false} NothingLow(w: nat, m: nat)
    requires forall k: nat :: k < m ==> !Bit(w, k)
    ensures CountLow(w, m) == 0
  {
    if m > 0 {
      NothingLow(w, m - 1);
    }
  }

  // ---------- command sets ----------

  datatype Command = Command(mode: nat, pid: nat)

  datatype CommandSet = CommandSet(w1: UInt32, w21: UInt32, w41: UInt32, w61: UInt32, w9: UInt32)

  const LAST_PID := 0x4E
  const DTCS := Command(3, 0)

  function Mode1Commands(): (t: seq<Command>)
    ensures |t| == LAST_PID + 1 && forall pid :: 0 <= pid < |t| ==> t[pid] == Command(1, pid)
  {
    seq(LAST_PID + 1, pid requires pid >= 0 => Command(1, pid))
  }

  function Mode9Commands(): (t: seq<Command>)
    ensures |t| == 3 && forall pid :: 0 <= pid < |t| ==> t[pid] == Command(9, pid)
  {
    [Command(9, 0), Command(9, 1), Command(9, 2)]
  }

  /** A command whose bit, if it has one, lies inside its word. */
  predicate InRange(c: Command) {
    (c.mode == 1 ==> c.pid <= 0x80) && (c.mode == 9 ==> c.pid <= 0x20)
  }

  predicate ContainsCommand(s: CommandSet, c: Command)
    requires InRange(c)
  {
    if c.mode == 1 then
      if c.pid == 0 then true
      else if c.pid <= 0x20 then And(s.w1, Pow2(0x20 - c.pid)) != 0
      else if c.pid <= 0x40 then And(s.w21, Pow2(0x40 - c.pid)) != 0
      else if c.pid <= 0x60 then And(s.w41, Pow2(0x60 - c.pid)) != 0
      else And(s.w61, Pow2(0x80 - c.pid)) != 0
    else if c.mode == 9 then
      if c.pid == 0 then true else And(s.w9, Pow2(0x20 - c.pid)) != 0
    else false
  }

  /** What the vehicle answers to each query for supported PIDs; 0 stands for no answer too. */
  datatype Replies = Replies(to20: UInt32, to40: UInt32, to60: UInt32, mode9: UInt32)

  /** The words kept: a range is asked for only if the last PID of the one before is supported. */
  function Collected(r: Replies): CommandSet {
    var w9: UInt32 := And(r.mode9, 0xE000_0000);
    if And(r.to20, 1) == 0 then CommandSet(r.to20, 0, 0, 0, w9)
    else if And(r.to40, 1) == 0 then CommandSet(r.to20, r.to40, 0, 0, w9)
    else CommandSet(r.to20, r.to40, And(r.to60, 0xFFFC_0000), 0, w9)
  }

  /** What the replies say of a mode 1 PID. */
  predicate Answered(r: Replies, pid: nat) {
    || pid == 0
    || (pid <= 0x20 && Bit(r.to20, 0x20 - pid))
    || (0x20 < pid <= 0x40 && Bit(r.to20, 0) && Bit(r.to40, 0x40 - pid))
    || (0x40 < pid <= LAST_PID && Bit(r.to20, 0) && Bit(r.to40, 0) && Bit(r.to60, 0x60 - pid))
  }

  lemma KeptBit(w: UInt32, mask: nat, m: nat, k: nat)
    requires m <= 32 && mask == Pow2(32) - Pow2(m)
    ensures Bit(And(w, mask), k) <==> Bit(w, k) && m <= k < 32
  {
    BitOfAnd(w, mask, k);
    BitOfHighMask(32, m, k);
  }

  lemma KeptBit41(w: UInt32, k: nat)
    ensures Bit(And(w, 0xFFFC_0000), k) <==> Bit(w, k) && 18 <= k < 32
  {
    hide And, Bit;
    SomePowers();
    KeptBit(w, 0xFFFC_0000, 18, k);
  }

  lemma KeptBit9(w: UInt32, k: nat)
    ensures Bit(And(w, 0xE000_0000), k) <==> Bit(w, k) && 29 <= k < 32
  {
    hide And, Bit;
    SomePowers();
    KeptBit(w, 0xE000_0000, 29, k);
  }

  lemma LowestBit(w: nat)
    ensures And(w, 1) != 0 <==> Bit(w, 0)
  {
    TestBit(w, 0);
  }

  /** Membership of a mode 1 command is what the replies say of its PID. */
  lemma ContainsIffAnswered(r: Replies, pid: nat)
    requires pid <= LAST_PID
    ensures ContainsCommand(Collected(r), Command(1, pid)) <==> Answered(r, pid)
  {
    LowestBit(r.to20);
    LowestBit(r.to40);
    if 0 < pid <= 0x20 {
      TestBit(Collected(r).w1, 0x20 - pid);
    } else if 0x20 < pid <= 0x40 {
      TestBit(Collected(r).w21, 0x40 - pid);
      NoBitOfZero(0x40 - pid);
    } else if pid > 0x40 {
      TestBit(Collected(r).w41, 0x60 - pid);
      NoBitOfZero(0x60 - pid);
      KeptBit41(r.to60, 0x60 - pid);
    }
  }

  // ---------- the list ----------

  predicate TableOk(table: seq<Command>) {
    forall k :: 0 <= k < |table| ==> InRange(table[k])
  }

  /** Those of the first n commands of the table that are in the set, in table order. */
  function Listed(s: CommandSet, table: seq<Command>, n: nat): seq<Command>
    requires n <= |table| && TableOk(table)
  {
    if n == 0 then []
    else Listed(s, table, n - 1) + if ContainsCommand(s, table[n - 1]) then [table[n - 1]] else []
  }

  lemma {:induction false} ListedMembers(s: CommandSet, table: seq<Command>, n: nat, c: Command)
    requires n <= |table| && TableOk(table)
    ensures c in Listed(s, table, n) <==> InRange(c) && ContainsCommand(s, c) && c in table[..n]
  {
    if n > 0 {
      ListedMembers(s, table, n - 1, c);
      assert table[..n] == table[..n - 1] + [table[n - 1]];
    }
  }

  predicate Increasing(l: seq<Command>) {
    forall i, j :: 0 <= i < j < |l| ==> l[i].pid < l[j].pid
  }

  /** A table in PID order is listed in PID order, so without repetition. */
  lemma {:induction false} ListedInOrder(s: CommandSet, table: seq<Command>, n: nat)
    requires n <= |table| && TableOk(table) && Increasing(table)
    ensures Increasing(Listed(s, table, n))
    ensures forall c :: c in Listed(s, table, n) ==> n > 0 && c.pid <= table[n - 1].pid
  {
    if n > 0 {
      ListedInOrder(s, table, n - 1);
    }
  }

  lemma {:induction false} LengthTo20(s: CommandSet, n: nat)
    requires n <= 0x20
    ensures |Listed(s, Mode1Commands(), n + 1)| == 1 + CountHigh(s.w1, n)
  {
    if n > 0 {
      LengthTo20(s, n - 1);
      TestBit(s.w1, 0x20 - n);
    } else {
      assert |Listed(s, Mode1Commands(), 0)| == 0;
    }
  }

  lemma {:induction false} LengthTo40(s: CommandSet, n: nat)
    requires n <= 0x20
    ensures |Listed(s, Mode1Commands(), n + 0x21)| == 1 + CountHigh(s.w1, 0x20) + CountHigh(s.w21, n)
  {
    if n > 0 {
      LengthTo40(s, n - 1);
      TestBit(s.w21, 0x20 - n);
    } else {
      LengthTo20(s, 0x20);
    }
  }

  lemma {:induction false} LengthTo4E(s: CommandSet, n: nat)
    requires n <= 14
    ensures |Listed(s, Mode1Commands(), n + 0x41)|
            == 1 + CountHigh(s.w1, 0x20) + CountHigh(s.w21, 0x20) + CountHigh(s.w41, n)
  {
    if n > 0 {
      LengthTo4E(s, n - 1);
      TestBit(s.w41, 0x20 - n);
    } else {
      LengthTo40(s, 0x20);
    }
  }

  lemma {:induction false} LengthOfMode9(s: CommandSet, n: nat)
    requires n <= 2
    ensures |Listed(s, Mode9Commands(), n + 1)| == 1 + CountHigh(s.w9, n)
  {
    if n > 0 {
      LengthOfMode9(s, n - 1);
      TestBit(s.w9, 0x20 - n);
    } else {
      assert |Listed(s, Mode9Commands(), 0)| == 0;
    }
  }

  /** The whole list: mode 1, then the one mode 3 command, then mode 9. */
  function AllListed(s: CommandSet): seq<Command> {
    Listed(s, Mode1Commands(), |Mode1Commands()|) + [DTCS] + Listed(s, Mode9Commands(), 3)
  }

  /** The size the bit counts give. */
  function NumCommands(s: CommandSet): nat {
    Pop(s.w1) + Pop(s.w21) + Pop(s.w41) + Pop(s.w61) + Pop(s.w9) + 3
  }

  lemma AllBitsHigh(w: UInt32)
    ensures CountHigh(w, 32) == Pop(w)
  {
    HighAndLow(w, 32);
  }

  lemma HighOf41(w: UInt32)
    ensures CountHigh(And(w, 0xFFFC_0000), 14) == Pop(And(w, 0xFFFC_0000))
  {
    var kept := And(w, 0xFFFC_0000);
    HighAndLow(kept, 14);
    forall k: nat | k < 18
      ensures !Bit(kept, k)
    {
      KeptBit41(w, k);
    }
    NothingLow(kept, 18);
  }

  lemma HighOf9(w: UInt32)
    ensures CountHigh(And(w, 0xE000_0000), 2) + BitAt(w, 29) == Pop(And(w, 0xE000_0000))
  {
    var kept := And(w, 0xE000_0000);
    HighAndLow(kept, 3);
    forall k: nat | k < 29
      ensures !Bit(kept, k)
    {
      KeptBit9(w, k);
    }
    NothingLow(kept, 29);
    KeptBit9(w, 29);
  }

  lemma NoHighOfZero()
    ensures CountHigh(0, 14) == 0 == Pop(0)
  {
    HighAndLow(0, 14);
  }

  /** The count exceeds the list by one exactly when PID 3 of mode 9, which has no table entry, is supported. */
  lemma CountIsListLength(r: Replies)
    ensures NumCommands(Collected(r)) == |AllListed(Collected(r))| + BitAt(r.mode9, 29)
  {
    var s := Collected(r);
    LengthTo4E(s, 14);
    LengthOfMode9(s, 2);
    AllBitsHigh(s.w1);
    AllBitsHigh(s.w21);
    HighOf41(r.to60);
    NoHighOfZero();
    HighOf9(r.mode9);
  }

  /** Of a vehicle that supports PID 3 of mode 9 and nothing else the array gets one place that stays unwritten. */
  lemma OnePlaceTooMany(r: Replies)
    requires r == Replies(0, 0, 0, 0x2000_0000)
    ensures NumCommands(Collected(r)) == |AllListed(Collected(r))| + 1
  {
    CountIsListLength(r);
    hide Collected, NumCommands, AllListed;
    SomePowers();
    OneBit(29);
  }

  lemma {:induction false} OneBit(k: nat)
    ensures Bit(Pow2(k), k)
  {
    if k > 0 {
      OneBit(k - 1);
    }
  }

  // ---------- the query and its loops ----------

  /** A place in the allocated array: not written yet, or a command. */
  datatype Slot = Unwritten | Holds(command: Command)

  predicate Written(a: seq<Slot>, l: seq<Command>) {
    |l| <= |a| && forall i :: 0 <= i < |l| ==> a[i] == Holds(l[i])
  }

  /** One pass over a table: each command in the set is written and the position moves past it. */
  method FillFrom(commands: array<Slot>, pos: nat, s: CommandSet, table: seq<Command>, ghost before: seq<Command>)
    returns (pos': nat)
    requires TableOk(table) && |before| == pos && Written(commands[..], before)
    requires pos + |Listed(s, table, |table|)| <= commands.Length
    modifies commands
    ensures Written(commands[..], before + Listed(s, table, |table|)) && pos' == pos + |Listed(s, table, |table|)|
    ensures forall i :: pos' <= i < commands.Length ==> commands[i] == old(commands[i])
  {
    pos' := pos;
    var pid := 0;
    while pid < |table|
      invariant pid <= |table| && pos' == pos + |Listed(s, table, pid)| <= commands.Length
      invariant Written(commands[..], before + Listed(s, table, pid))
      invariant forall i :: pos' <= i < commands.Length ==> commands[i] == old(commands[i])
    {
      ListedGrows(s, table, pid + 1);
      if ContainsCommand(s, table[pid]) {
        commands[pos'] := Holds(table[pid]);
        pos' := pos' + 1;
      }
      pid := pid + 1;
    }
  }

  lemma {:induction false} ListedGrows(s: CommandSet, table: seq<Command>, n: nat)
    requires n <= |table| && TableOk(table)
    ensures |Listed(s, table, n)| <= |Listed(s, table, |table|)|
    decreases |table| - n
  {
    if n < |table| {
      ListedGrows(s, table, n + 1);
    }
  }

  /** Asks for the words, counts their bits, allocates that many places and fills them. */
  method GetSupportedCommands(r: Replies, mallocOk: bool)
    returns (s: CommandSet, numCommands: nat, commands: array?<Slot>)
    ensures s == Collected(r)
    ensures !mallocOk ==> commands == null && numCommands == 0
    ensures mallocOk ==>
              && commands != null && fresh(commands) && commands.Length == numCommands
              && numCommands == |AllListed(s)| + BitAt(r.mode9, 29)
              && Written(commands[..], AllListed(s))
              && (Bit(r.mode9, 29) ==> commands[numCommands - 1] == Unwritten)
  {
    hide Collected, Pop, CountLow, Bit, Listed, ContainsCommand, And;
    s := Collect(r);
    var b1 := BitsSet(s.w1);
    var b21 := BitsSet(s.w21);
    var b41 := BitsSet(s.w41);
    var b61 := BitsSet(s.w61);
    var b9 := BitsSet(s.w9);
    var n := b1 + b21 + b41 + b61 + b9;
    n := n + 2;
    n := n + 1;
    CountIsListLength(r);
    if !mallocOk {
      return s, 0, null;
    }
    commands := new Slot[n](_ => Unwritten);
    numCommands := n;
    var pos := FillFrom(commands, 0, s, Mode1Commands(), []);
    ghost var first := Listed(s, Mode1Commands(), |Mode1Commands()|);
    assert [] + first == first;
    commands[pos] := Holds(DTCS);
    pos := pos + 1;
    pos := FillFrom(commands, pos, s, Mode9Commands(), first + [DTCS]);
  }

  method Collect(r: Replies) returns (s: CommandSet)
    ensures s == Collected(r)
  {
    s := CommandSet(0, 0, 0, 0, 0);
    s := s.(w1 := r.to20);
    if And(r.to20, 1) != 0 {
      s := s.(w21 := r.to40);
      if And(r.to40, 1) != 0 {
        s := s.(w41 := And(r.to60, 0xFFFC_0000));
      }
    }
    s := s.(w9 := And(r.mode9, 0xE000_0000));
  }

  /** The list against the replies: mode 1 PIDs as answered, PIDs 0 to 2 of mode 9 as answered, the DTC query always. */
  lemma ListIsWhatVehicleAnswered(r: Replies, c: Command)
    ensures c in AllListed(Collected(r)) <==>
              || (c.mode == 1 && c.pid <= 0x4E && Answered(r, c.pid))
              || c == Command(3, 0)
              || (c.mode == 9 && c.pid <= 2 && (c.pid == 0 || Bit(r.mode9, 0x20 - c.pid)))
  {
    var s := Collected(r);
    ListedMembers(s, Mode1Commands(), |Mode1Commands()|, c);
    ListedMembers(s, Mode9Commands(), 3, c);
    InTable(Mode1Commands(), 1, c);
    InTable(Mode9Commands(), 9, c);
    hide Collected, Bit, And, Listed, Answered;
    assert Mode1Commands()[..|Mode1Commands()|] == Mode1Commands() && Mode9Commands()[..3] == Mode9Commands();
    if c.mode == 1 && c.pid <= LAST_PID {
      ContainsIffAnswered(r, c.pid);
    }
    if c.mode == 9 && 0 < c.pid <= 2 {
      Mode9Bit(r, c.pid);
    }
  }

  lemma InTable(table: seq<Command>, mode: nat, c: Command)
    requires forall k :: 0 <= k < |table| ==> table[k] == Command(mode, k)
    ensures c in table <==> c.mode == mode && c.pid < |table|
  {
    if c.mode == mode && c.pid < |table| {
      assert table[c.pid] == c;
    }
  }

  lemma Mode9Bit(r: Replies, pid: nat)
    requires 0 < pid <= 2
    ensures ContainsCommand(Collected(r), Command(9, pid)) <==> Bit(r.mode9, 0x20 - pid)
  {
    TestBit(Collected(r).w9, 0x20 - pid);
    KeptBit9(r.mode9, 0x20 - pid);
  }

  /** No command is listed twice, and each mode's run is in PID order. */
  lemma ListIsOrdered(s: CommandSet)
    ensures var l := AllListed(s);
            forall i, j :: 0 <= i < j < |l| ==> l[i].mode < l[j].mode || (l[i].mode == l[j].mode && l[i].pid < l[j].pid)
  {
    var t1, t9 := Mode1Commands(), Mode9Commands();
    ListedInOrder(s, t1, |t1|);
    ListedInOrder(s, t9, 3);
    var first, last := Listed(s, t1, |t1|), Listed(s, t9, 3);
    forall c | c in first
      ensures c.mode == 1
    {
      ListedMembers(s, t1, |t1|, c);
    }
    forall c | c in last
      ensures c.mode == 9
    {
      ListedMembers(s, t9, 3, c);
    }
    assert forall k :: 0 <= k < |first| ==> first[k] in first;
    assert forall k :: 0 <= k < |last| ==> last[k] in last;
    hide Listed, ContainsCommand;
  }
}
