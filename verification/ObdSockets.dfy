/** The daemon's shared sockets: what requests do to them, over every run, and how requests travel as bytes. */
module ObdSockets {

  import opened Machine

  /** What a shared socket is shared by: interface, transfer id and receive id. */
  datatype Key = Key(ifindex: UInt32, tid: UInt32, rid: UInt32)

  datatype Entry = Entry(key: Key, socket: int, refcount: int)

  /** What an open CAN socket is bound to. */
  datatype Address = Unbound | At(key: Key)

  /** The list of connections, in list order, and the sockets the process holds open. */
  datatype Registry = Registry(entries: seq<Entry>, held: map<int, Address>)

  /** How the operating system answers when a new connection is opened; fd is the handle socket() gave. */
  datatype Os = SocketFails | BindFails(fd: int) | MallocFails(fd: int) | Works(fd: int)

  datatype Kind = Open | Close

  datatype Request = Request(kind: Kind, key: Key)

  datatype Reply = Silence | Success | SuccessWithSocket(fd: int) | NoSuchSocket | OpenSocketError

  /** The position of the first entry for key, or the length. */
  function Find(entries: seq<Entry>, key: Key): (k: nat)
    ensures k <= |entries|
    ensures k < |entries| ==> entries[k].key == key
    ensures forall i :: 0 <= i < k ==> entries[i].key != key
  {
    if entries == [] || entries[0].key == key then 0 else 1 + Find(entries[1..], key)
  }

  lemma WithoutAt<T>(entries: seq<T>, k: nat)
    requires k < |entries|
    ensures |Without(entries, k)| == |entries| - 1
    ensures forall i: nat {:trigger Without(entries, k)[i]} :: i < |entries| - 1 ==>
              Without(entries, k)[i] == entries[if i < k then i else i + 1]
  {
  }

  function Step(reg: Registry, r: Request, os: Os): (Registry, Reply) {
    var k := Find(reg.entries, r.key);
    if r.kind == Open then
      if k < |reg.entries| then
        var e := reg.entries[k];
        (reg.(entries := reg.entries[k := e.(refcount := e.refcount + 1)]), SuccessWithSocket(e.socket))
      else if os.Works? then
        (Registry([Entry(r.key, os.fd, 1)] + reg.entries, reg.held[os.fd := At(r.key)]), SuccessWithSocket(os.fd))
      else (reg, OpenSocketError)
    else if k < |reg.entries| then
      var e := reg.entries[k];
      if e.refcount == 1 then (Registry(Without(reg.entries, k), reg.held - {e.socket}), Success)
      else (reg.(entries := reg.entries[k := e.(refcount := e.refcount - 1)]), Success)
    else (reg, NoSuchSocket)
  }

  /** A handle the system gives out is one that is not open. */
  ghost predicate Fresh(reg: Registry, os: Os) {
    !os.SocketFails? ==> os.fd >= 0 && os.fd !in reg.held
  }

  /** No two entries share a key or a socket. */
  ghost predicate AllApart(entries: seq<Entry>) {
    forall i: nat, j: nat {:trigger entries[i], entries[j]} :: i < j < |entries| ==>
      entries[i].key != entries[j].key && entries[i].socket != entries[j].socket
  }

  ghost predicate BoundToKey(e: Entry, held: map<int, Address>) {
    e.socket in held && held[e.socket] == At(e.key)
  }

  ghost predicate AllLive(entries: seq<Entry>, held: map<int, Address>) {
    forall i: nat {:trigger entries[i]} :: i < |entries| ==> 1 <= entries[i].refcount && BoundToKey(entries[i], held)
  }

  ghost predicate HasSocket(entries: seq<Entry>, fd: int) {
    exists i: nat :: i < |entries| && entries[i].socket == fd
  }

  ghost predicate NoLeak(entries: seq<Entry>, held: map<int, Address>) {
    forall fd :: fd in held ==> HasSocket(entries, fd)
  }

  /** Keys are distinct, counts positive, and the sockets held are those of the entries, one each, bound to its key. */
  ghost predicate RegistryOk(reg: Registry) {
    AllApart(reg.entries) && AllLive(reg.entries, reg.held) && NoLeak(reg.entries, reg.held)
  }

  lemma RemovalKeepsApart(entries: seq<Entry>, k: nat)
    requires AllApart(entries) && k < |entries|
    ensures AllApart(Without(entries, k))
  {
    var rest := Without(entries, k);
    forall i: nat, j: nat | i < j < |rest|
      ensures rest[i].key != rest[j].key && rest[i].socket != rest[j].socket
    {
      var i', j' := if i < k then i else i + 1, if j < k then j else j + 1;
      assert rest[i] == entries[i'] && rest[j] == entries[j'];
    }
  }

  lemma RemovalKeepsLive(entries: seq<Entry>, held: map<int, Address>, k: nat)
    requires AllApart(entries) && AllLive(entries, held) && k < |entries|
    ensures AllLive(Without(entries, k), held - {entries[k].socket})
  {
    var rest := Without(entries, k);
    forall i: nat | i < |rest|
      ensures 1 <= rest[i].refcount && BoundToKey(rest[i], held - {entries[k].socket})
    {
      var i' := if i < k then i else i + 1;
      assert rest[i] == entries[i'];
    }
  }

  lemma RemovalLeaksNothing(entries: seq<Entry>, held: map<int, Address>, k: nat)
    requires NoLeak(entries, held) && k < |entries|
    ensures NoLeak(Without(entries, k), held - {entries[k].socket})
  {
    var rest := Without(entries, k);
    forall fd | fd in held - {entries[k].socket}
      ensures HasSocket(rest, fd)
    {
      assert HasSocket(entries, fd);
      var i: nat :| i < |entries| && entries[i].socket == fd;
      var i' := if i < k then i else i - 1;
      assert rest[i'] == entries[i];
    }
  }

  lemma InsertionKeepsOk(reg: Registry, key: Key, fd: int)
    requires RegistryOk(reg) && Find(reg.entries, key) == |reg.entries| && fd !in reg.held
    ensures RegistryOk(Registry([Entry(key, fd, 1)] + reg.entries, reg.held[fd := At(key)]))
  {
    hide AllApart, NoLeak;
    var entries := [Entry(key, fd, 1)] + reg.entries;
    assert AllApart(entries) by { InsertionKeepsApart(reg.entries, reg.held, key, fd); }
    assert AllLive(entries, reg.held[fd := At(key)]) by {
      forall i: nat | i < |entries|
        ensures 1 <= entries[i].refcount && BoundToKey(entries[i], reg.held[fd := At(key)])
      {
        if i > 0 {
          assert entries[i] == reg.entries[i - 1];
        }
      }
    }
    assert NoLeak(entries, reg.held[fd := At(key)]) by { InsertionLeaksNothing(reg.entries, reg.held, key, fd); }
  }

  lemma InsertionKeepsApart(entries: seq<Entry>, held: map<int, Address>, key: Key, fd: int)
    requires AllApart(entries) && AllLive(entries, held) && Find(entries, key) == |entries| && fd !in held
    ensures AllApart([Entry(key, fd, 1)] + entries)
  {
    var longer := [Entry(key, fd, 1)] + entries;
    forall i: nat, j: nat | i < j < |longer|
      ensures longer[i].key != longer[j].key && longer[i].socket != longer[j].socket
    {
      assert longer[j] == entries[j - 1];
      if i > 0 {
        assert longer[i] == entries[i - 1];
      }
    }
  }

  lemma InsertionLeaksNothing(entries: seq<Entry>, held: map<int, Address>, key: Key, fd: int)
    requires NoLeak(entries, held)
    ensures NoLeak([Entry(key, fd, 1)] + entries, held[fd := At(key)])
  {
    var longer := [Entry(key, fd, 1)] + entries;
    forall s | s in held[fd := At(key)]
      ensures HasSocket(longer, s)
    {
      if s == fd {
        assert longer[0].socket == s;
      } else {
        assert HasSocket(entries, s);
        var i: nat :| i < |entries| && entries[i].socket == s;
        assert longer[i + 1] == entries[i];
      }
    }
  }

  lemma CountKeepsOk(reg: Registry, k: nat, n: int)
    requires RegistryOk(reg) && k < |reg.entries| && 1 <= n
    ensures RegistryOk(reg.(entries := reg.entries[k := reg.entries[k].(refcount := n)]))
  {
    var entries := reg.entries[k := reg.entries[k].(refcount := n)];
    assert forall i: nat {:trigger entries[i]} :: i < |entries| ==>
      entries[i].key == reg.entries[i].key && entries[i].socket == reg.entries[i].socket;
    forall fd | fd in reg.held
      ensures HasSocket(entries, fd)
    {
      assert HasSocket(reg.entries, fd);
      var i: nat :| i < |reg.entries| && reg.entries[i].socket == fd;
      assert entries[i].socket == fd;
    }
  }

  /** No request leaks a socket, closes one twice or shares one, whichever system call fails. */
  lemma StepKeepsOk(reg: Registry, r: Request, os: Os)
    requires RegistryOk(reg) && Fresh(reg, os)
    ensures RegistryOk(Step(reg, r, os).0)
  {
    hide AllApart, AllLive, NoLeak, Without;
    var k := Find(reg.entries, r.key);
    if k < |reg.entries| {
      assert 1 <= reg.entries[k].refcount by { CountIsPositive(reg, k); }
      if r.kind == Open {
        CountKeepsOk(reg, k, reg.entries[k].refcount + 1);
      } else if reg.entries[k].refcount == 1 {
        RemovalKeepsApart(reg.entries, k);
        RemovalKeepsLive(reg.entries, reg.held, k);
        RemovalLeaksNothing(reg.entries, reg.held, k);
      } else {
        CountKeepsOk(reg, k, reg.entries[k].refcount - 1);
      }
    } else if r.kind == Open && os.Works? {
      InsertionKeepsOk(reg, r.key, os.fd);
    }
  }

  lemma CountIsPositive(reg: Registry, k: nat)
    requires RegistryOk(reg) && k < |reg.entries|
    ensures 1 <= reg.entries[k].refcount && BoundToKey(reg.entries[k], reg.held)
  {
  }

  /** The socket a client is handed is open and bound to the interface and ids it asked for. */
  lemma GrantedSocketIsBound(reg: Registry, r: Request, os: Os)
    requires RegistryOk(reg)
    ensures var (reg', reply) := Step(reg, r, os);
            reply.SuccessWithSocket? ==> reply.fd in reg'.held && reg'.held[reply.fd] == At(r.key)
  {
    var k := Find(reg.entries, r.key);
    if k < |reg.entries| {
      CountIsPositive(reg, k);
    }
  }

  // ---------- accounting over a run ----------

  /** The reference count of a key; a key without an entry counts 0. */
  function RefCount(reg: Registry, key: Key): int {
    var k := Find(reg.entries, key);
    if k < |reg.entries| then reg.entries[k].refcount else 0
  }

  function Succeeded(reply: Reply): bool {
    reply.Success? || reply.SuccessWithSocket?
  }

  lemma FindIs(entries: seq<Entry>, key: Key, k: nat)
    requires k <= |entries| && (k < |entries| ==> entries[k].key == key) && forall i :: 0 <= i < k ==> entries[i].key != key
    ensures Find(entries, key) == k
  {
  }

  lemma FindAfterInsertion(entries: seq<Entry>, added: Entry, key: Key)
    ensures Find([added] + entries, key) == if added.key == key then 0 else Find(entries, key) + 1
  {
    assert ([added] + entries)[1..] == entries;
  }

  lemma FindAfterUpdate(entries: seq<Entry>, k: nat, n: int, key: Key)
    requires k < |entries|
    ensures Find(entries[k := entries[k].(refcount := n)], key) == Find(entries, key)
  {
    FindIs(entries[k := entries[k].(refcount := n)], key, Find(entries, key));
  }

  /** A request changes its own key's count by one if it succeeds, and no other key's count ever. */
  lemma StepCounts(reg: Registry, r: Request, os: Os, key: Key)
    requires RegistryOk(reg)
    ensures var (reg', reply) := Step(reg, r, os);
            RefCount(reg', key) == RefCount(reg, key) +
                                   (if r.key == key && Succeeded(reply) then if r.kind == Open then 1 else -1 else 0)
  {
    hide RegistryOk, Find, Without;
    var k := Find(reg.entries, r.key);
    if k < |reg.entries| {
      CountIsPositive(reg, k);
      var e := reg.entries[k];
      if r.kind == Close && e.refcount == 1 {
        CountAfterRemoval(reg, k, key);
      } else {
        FindAfterUpdate(reg.entries, k, if r.kind == Open then e.refcount + 1 else e.refcount - 1, key);
      }
    } else if r.kind == Open && os.Works? {
      FindAfterInsertion(reg.entries, Entry(r.key, os.fd, 1), key);
    }
  }

  lemma CountAfterRemoval(reg: Registry, k: nat, key: Key)
    requires RegistryOk(reg) && k < |reg.entries|
    ensures var rest := Registry(Without(reg.entries, k), reg.held - {reg.entries[k].socket});
            RefCount(rest, key) == if reg.entries[k].key == key then 0 else RefCount(reg, key)
  {
    AfterRemoval(reg, k, key);
  }

  lemma AfterRemoval(reg: Registry, k: nat, key: Key)
    requires RegistryOk(reg) && k < |reg.entries|
    ensures var rest, j := Without(reg.entries, k), Find(reg.entries, key);
            Find(rest, key) == (if reg.entries[k].key == key then |rest| else if k < j then j - 1 else j)
  {
    var entries, rest := reg.entries, Without(reg.entries, k);
    var j := Find(entries, key);
    var j' := if entries[k].key == key then |rest| else if k < j then j - 1 else j;
    forall i | 0 <= i < j'
      ensures rest[i].key != key
    {
      var i' := if i < k then i else i + 1;
      assert rest[i] == entries[i'];
    }
    FindIs(rest, key, j');
  }

  // ---------- requests as bytes ----------

  const API_VERSION := 1
  const HEADER_SIZE := 4
  const REQUEST_SIZE := 16

  /** The bytes of a 16-bit number on a little-endian host. */
  function Le16(x: int): (b: seq<Byte>)
    requires 0 <= x < 0x1_0000
    ensures |b| == 2
  {
    [x % 256, x / 256]
  }

  function Le32(x: UInt32): (b: seq<Byte>)
    ensures |b| == 4
  {
    [x % 256, x / 256 % 256, x / 256 / 256 % 256, x / 256 / 256 / 256]
  }

  /** buf[i] | buf[i + 1] << 8, whose parts do not overlap. */
  function AsUInt16(b: seq<Byte>, i: nat): int
    requires i + 2 <= |b|
  {
    var b0: int, b1: int := b[i], b[i + 1];
    b0 + 0x100 * b1
  }

  function AsUInt32(b: seq<Byte>, i: nat): UInt32
    requires i + 4 <= |b|
  {
    var b0: int, b1: int, b2: int, b3: int := b[i], b[i + 1], b[i + 2], b[i + 3];
    b0 + 0x100 * b1 + 0x1_0000 * b2 + 0x100_0000 * b3
  }

  function KindCode(kind: Kind): int {
    if kind == Open then 0 else 1
  }

  /** The request a client sends. */
  function Wire(r: Request): (b: seq<Byte>)
    ensures |b| == REQUEST_SIZE
  {
    Le16(API_VERSION) + Le16(KindCode(r.kind)) + Le32(r.key.ifindex) + Le32(r.key.tid) + Le32(r.key.rid)
  }

  datatype Decoded = Ignored | Understood(request: Request)

  /** What the daemon makes of a message: too short, of another version or of another kind, it is ignored. */
  function Decode(b: seq<Byte>): Decoded {
    if |b| < HEADER_SIZE || AsUInt16(b, 0) != API_VERSION || AsUInt16(b, 2) > 1 || |b| - HEADER_SIZE < 12 then Ignored
    else Understood(Request(if AsUInt16(b, 2) == 0 then Open else Close, Key(AsUInt32(b, 4), AsUInt32(b, 8), AsUInt32(b, 12))))
  }

  lemma BytesOfWord(x: UInt32)
    ensures x % 256 + 0x100 * (x / 256 % 256) + 0x1_0000 * (x / 256 / 256 % 256) + 0x100_0000 * (x / 256 / 256 / 256) == x
  {
  }

  /** The daemon understands every request exactly as the client meant it. */
  lemma WireRoundTrip(r: Request)
    ensures Decode(Wire(r)) == Understood(r)
  {
    BytesOfWord(r.key.ifindex);
    BytesOfWord(r.key.tid);
    BytesOfWord(r.key.rid);
  }

  /** Four bytes from i on, the lowest first. */
  ghost predicate WordAt(b: seq<Byte>, i: nat, x: UInt32) {
    i + 4 <= |b| && x == (b[i] as int) + 0x100 * (b[i + 1] as int) + 0x1_0000 * (b[i + 2] as int) + 0x100_0000 * (b[i + 3] as int)
  }

  /** The request byte by byte: version 1, 0 for open and 1 for close, and the three numbers. */
  lemma WireIs(r: Request)
    ensures Wire(r)[..4] == [1, 0, if r.kind == Open then 0 else 1, 0]
    ensures WordAt(Wire(r), 4, r.key.ifindex) && WordAt(Wire(r), 8, r.key.tid) && WordAt(Wire(r), 12, r.key.rid)
  {
    var head, a, b, c := Le16(API_VERSION) + Le16(KindCode(r.kind)), Le32(r.key.ifindex), Le32(r.key.tid), Le32(r.key.rid);
    BytesOfWord(r.key.ifindex);
    BytesOfWord(r.key.tid);
    BytesOfWord(r.key.rid);
    assert Wire(r) == head + a + b + c && head == [1, 0, if r.kind == Open then 0 else 1, 0];
    hide Le16, Le32;
    assert forall i :: 0 <= i < 4 ==> Wire(r)[4 + i] == a[i] && Wire(r)[8 + i] == b[i] && Wire(r)[12 + i] == c[i];
  }

  /** A message is understood exactly if it has 16 bytes, version 1 and kind 0 or 1; what stands behind is ignored. */
  lemma DecodedIs(m: seq<Byte>, key: Key, kind: Kind)
    ensures Decode(m) == Understood(Request(kind, key)) <==>
            && 16 <= |m| && m[..4] == [1, 0, if kind == Open then 0 else 1, 0]
            && WordAt(m, 4, key.ifindex) && WordAt(m, 8, key.tid) && WordAt(m, 12, key.rid)
  {
    if 16 <= |m| {
      assert m[..4] == [m[0], m[1], m[2], m[3]];
      HalfWord(m[0], m[1], 1);
      HalfWord(m[2], m[3], 0);
      HalfWord(m[2], m[3], 1);
    }
  }

  lemma HalfWord(lo: Byte, hi: Byte, x: int)
    requires 0 <= x <= 1
    ensures (lo as int) + 0x100 * (hi as int) == x <==> lo == x && hi == 0
    ensures (lo as int) + 0x100 * (hi as int) <= 1 <==> hi == 0 && lo <= 1
  {
  }

  /** So a close addresses the entry its open created or shared: the pair leaves no trace in the daemon. */
  lemma CloseUndoesItsOpen(reg: Registry, key: Key, os: Os, os': Os)
    requires RegistryOk(reg) && Fresh(reg, os) && Succeeded(Step(reg, Request(Open, key), os).1)
    ensures var opening, closing := Decode(Wire(Request(Open, key))), Decode(Wire(Request(Close, key)));
            && opening.Understood? && closing.Understood?
            && Step(Step(reg, opening.request, os).0, closing.request, os') == (reg, Success)
  {
    WireRoundTrip(Request(Open, key));
    WireRoundTrip(Request(Close, key));
    hide Wire, Decode, RegistryOk, Find;
    var entries, k := reg.entries, Find(reg.entries, key);
    if k < |entries| {
      CountIsPositive(reg, k);
      var e := entries[k];
      FindAfterUpdate(entries, k, e.refcount + 1, key);
      assert e.(refcount := e.refcount + 1).(refcount := e.refcount) == e;
      assert entries[k := e.(refcount := e.refcount + 1)][k := e] == entries;
    } else {
      FindAfterInsertion(entries, Entry(key, os.fd, 1), key);
      assert Without([Entry(key, os.fd, 1)] + entries, 0) == entries;
      assert reg.held[os.fd := At(key)] - {os.fd} == reg.held;
    }
  }

  // ---------- whole runs ----------

  /** A message as it arrives, and how the system answers if a socket must be opened for it. */
  datatype Event = Event(message: seq<Byte>, os: Os)

  function React(reg: Registry, e: Event): (Registry, Reply) {
    match Decode(e.message)
    case Ignored => (reg, Silence)
    case Understood(r) => Step(reg, r, e.os)
  }

  function Empty(): (reg: Registry)
    ensures RegistryOk(reg) && forall key :: RefCount(reg, key) == 0
  {
    Registry([], map[])
  }

  /** The registry after the first n events, from an empty daemon. */
  function After(events: seq<Event>, n: nat): Registry
    requires n <= |events|
  {
    if n == 0 then Empty() else React(After(events, n - 1), events[n - 1]).0
  }

  /** Every new handle was not open when it was given out. */
  ghost predicate RunOk(events: seq<Event>) {
    forall n: nat :: n < |events| ==> Fresh(After(events, n), events[n].os)
  }

  /** How many of the first n messages were successful requests of that kind for key. */
  function Successes(events: seq<Event>, n: nat, kind: Kind, key: Key): nat
    requires n <= |events|
  {
    if n == 0 then 0
    else
      var e := events[n - 1];
      Successes(events, n - 1, kind, key)
      + (if Decode(e.message) == Understood(Request(kind, key)) && Succeeded(React(After(events, n - 1), e).1) then 1 else 0)
  }

  /** Over every run: one socket held per entry, and each count is successful opens minus successful closes. */
  lemma {:induction false} RunIsAccounted(events: seq<Event>, n: nat, key: Key)
    requires n <= |events| && RunOk(events)
    ensures RegistryOk(After(events, n))
    ensures RefCount(After(events, n), key) == Successes(events, n, Open, key) - Successes(events, n, Close, key)
  {
    hide Step, RegistryOk, RefCount, Fresh, Decode;
    if n > 0 {
      var reg, e := After(events, n - 1), events[n - 1];
      assert Fresh(reg, e.os);
      RunIsAccounted(events, n - 1, key);
      if Decode(e.message).Understood? {
        StepKeepsOk(reg, Decode(e.message).request, e.os);
        StepCounts(reg, Decode(e.message).request, e.os, key);
      }
    }
  }

  /** A close succeeds exactly while opens outnumber closes for its key, and shuts a socket exactly at the last one. */
  lemma CloseSucceedsIffCounted(events: seq<Event>, n: nat, key: Key, os: Os)
    requires n <= |events| && RunOk(events)
    ensures var reg := After(events, n);
            var (reg', reply) := Step(reg, Request(Close, key), os);
            var uses := Successes(events, n, Open, key) - Successes(events, n, Close, key);
            && (reply == Success <==> uses > 0)
            && |reg'.held| == |reg.held| - if uses == 1 then 1 else 0
  {
    var reg := After(events, n);
    RunIsAccounted(events, n, key);
    hide After, Successes, RunOk;
    var k := Find(reg.entries, key);
    if k < |reg.entries| {
      CountIsPositive(reg, k);
      var fd := reg.entries[k].socket;
      assert (reg.held - {fd}).Keys == reg.held.Keys - {fd};
    }
  }

  // ---------- one socket per key ----------

  /** The socket of a key's entry; -1 without one. */
  function SocketOf(reg: Registry, key: Key): int {
    var k := Find(reg.entries, key);
    if k < |reg.entries| then reg.entries[k].socket else -1
  }

  lemma SocketAfterRemoval(reg: Registry, k: nat, key: Key)
    requires RegistryOk(reg) && k < |reg.entries| && reg.entries[k].key != key
    ensures SocketOf(Registry(Without(reg.entries, k), reg.held - {reg.entries[k].socket}), key) == SocketOf(reg, key)
  {
    AfterRemoval(reg, k, key);
  }

  lemma CountedHasEntry(reg: Registry, key: Key)
    requires RegistryOk(reg)
    ensures RefCount(reg, key) > 0 <==> Find(reg.entries, key) < |reg.entries|
  {
    if Find(reg.entries, key) < |reg.entries| {
      CountIsPositive(reg, Find(reg.entries, key));
    }
  }

  /** As long as a key is in use its socket stays, and whoever opens the key is handed that one. */
  lemma StepKeepsSocket(reg: Registry, r: Request, os: Os, key: Key)
    requires RegistryOk(reg)
    ensures var (reg', reply) := Step(reg, r, os);
            && (RefCount(reg, key) > 0 && RefCount(reg', key) > 0 ==> SocketOf(reg', key) == SocketOf(reg, key))
            && (r == Request(Open, key) && reply.SuccessWithSocket? ==> reply.fd == SocketOf(reg', key))
  {
    hide RegistryOk, Find, Without;
    var k := Find(reg.entries, r.key);
    CountedHasEntry(reg, key);
    if k < |reg.entries| {
      var e := reg.entries[k];
      if r.kind == Close && e.refcount == 1 {
        if e.key == key {
          CountAfterRemoval(reg, k, key);
        } else {
          SocketAfterRemoval(reg, k, key);
        }
      } else {
        FindAfterUpdate(reg.entries, k, if r.kind == Open then e.refcount + 1 else e.refcount - 1, key);
      }
    } else if r.kind == Open && os.Works? {
      FindAfterInsertion(reg.entries, Entry(r.key, os.fd, 1), key);
    }
  }

  /** More opens than closes of key have succeeded after each of i, ..., j events. */
  ghost predicate InUse(events: seq<Event>, i: nat, j: nat, key: Key)
    requires j <= |events|
  {
    forall m: nat :: i <= m <= j ==> Successes(events, m, Open, key) > Successes(events, m, Close, key)
  }

  lemma {:induction false} SocketIsKept(events: seq<Event>, i: nat, j: nat, key: Key)
    requires i <= j <= |events| && RunOk(events) && InUse(events, i, j, key)
    ensures SocketOf(After(events, j), key) == SocketOf(After(events, i), key)
    decreases j
  {
    hide Step, RegistryOk, RefCount, Decode, SocketOf, Successes;
    if i < j {
      SocketIsKept(events, i, j - 1, key);
      var reg, e := After(events, j - 1), events[j - 1];
      RunIsAccounted(events, j - 1, key);
      RunIsAccounted(events, j, key);
      if Decode(e.message).Understood? {
        StepKeepsSocket(reg, Decode(e.message).request, e.os, key);
      }
    }
  }

  /** Message i is an open of key that is granted fd. */
  ghost predicate Granted(events: seq<Event>, i: nat, key: Key, fd: int)
    requires i < |events|
  {
    Decode(events[i].message) == Understood(Request(Open, key)) && React(After(events, i), events[i]).1 == SuccessWithSocket(fd)
  }

  /** Clients that share a key share one socket: while it is in use, every open of it is granted the same handle. */
  lemma GrantsAgree(events: seq<Event>, i: nat, j: nat, key: Key, fd: int, fd': int)
    requires i < j < |events| && RunOk(events) && InUse(events, i + 1, j, key)
    requires Granted(events, i, key, fd) && Granted(events, j, key, fd')
    ensures fd == fd'
  {
    hide Step, RegistryOk, RefCount, Decode, SocketOf, Successes;
    RunIsAccounted(events, i, key);
    RunIsAccounted(events, j, key);
    RunIsAccounted(events, j + 1, key);
    StepKeepsSocket(After(events, i), Request(Open, key), events[i].os, key);
    StepKeepsSocket(After(events, j), Request(Open, key), events[j].os, key);
    SocketIsKept(events, i + 1, j, key);
    StepCounts(After(events, j), Request(Open, key), events[j].os, key);
  }

  /** Over every run the reply to a request follows from the opens and closes of its key and, for a new socket, from the system. */
  lemma ReplyIs(events: seq<Event>, n: nat, key: Key, os: Os)
    requires n <= |events| && RunOk(events)
    ensures var reg := After(events, n);
            var used := Successes(events, n, Open, key) > Successes(events, n, Close, key);
            && Step(reg, Request(Close, key), os).1 == (if used then Success else NoSuchSocket)
            && Step(reg, Request(Open, key), os).1 ==
               (if used then SuccessWithSocket(SocketOf(reg, key))
                else if os.Works? then SuccessWithSocket(os.fd) else OpenSocketError)
  {
    RunIsAccounted(events, n, key);
    CountedHasEntry(After(events, n), key);
    hide After, Successes, RunOk, RegistryOk, Find;
  }
}
