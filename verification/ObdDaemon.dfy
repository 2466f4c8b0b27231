/** The daemon itself: a doubly linked list of reference-counted connections, and the client's marshalling. */
module ObdDaemon {

  import opened Machine
  import opened ObdSockets

  class Connection {
    var ifindex: UInt32
    var tid: UInt32
    var rid: UInt32
    var s: int
    var refcount: int
    var prev: Connection?
    var next: Connection?

    constructor ()
      ensures prev == null && next == null
    {
      ifindex, tid, rid, s, refcount := 0, 0, 0, 0, 0;
      prev, next := null, null;
    }

    ghost predicate Mirrors(e: Entry)
      reads `ifindex, `tid, `rid, `s, `refcount
    {
      e == Entry(Key(ifindex, tid, rid), s, refcount)
    }
  }

  class Daemon {
    var head: Connection?
    /** The system's table of this process's open CAN sockets. */
    var held: map<int, Address>
    /** The list in order, and what each node stands for. */
    ghost var nodes: seq<Connection>
    ghost var entries: seq<Entry>

    ghost function Reg(): Registry
      reads this
    {
      Registry(entries, held)
    }

    ghost predicate NodeOk(i: nat)
      requires i < |nodes| == |entries|
      reads `nodes, `entries, nodes
    {
      && nodes[i].Mirrors(entries[i])
      && nodes[i].prev == (if i == 0 then null else nodes[i - 1])
      && nodes[i].next == (if i + 1 == |nodes| then null else nodes[i + 1])
    }

    ghost predicate Distinct()
      reads `nodes
    {
      forall i: nat, j: nat {:trigger nodes[i], nodes[j]} :: i < j < |nodes| ==> nodes[i] != nodes[j]
    }

    /** Mutual links over distinct nodes, from the head, which has no predecessor, to the end. */
    ghost predicate Valid()
      reads `head, `nodes, `entries, nodes
    {
      && |nodes| == |entries|
      && head == (if nodes == [] then null else nodes[0])
      && Distinct()
      && forall i: nat {:trigger NodeOk(i)} :: i < |nodes| ==> NodeOk(i)
    }

    constructor ()
      ensures Valid() && nodes == [] && Reg() == Empty()
    {
      head := null;
      held := map[];
      nodes, entries := [], [];
    }

    method Matching(ifindex: UInt32, tid: UInt32, rid: UInt32) returns (found: Connection?)
      requires Valid()
      ensures var k := Find(entries, Key(ifindex, tid, rid));
              found == if k < |nodes| then nodes[k] else null
    {
      ghost var i := 0;
      found := head;
      while found != null
        invariant i <= |nodes| && found == if i < |nodes| then nodes[i] else null
        invariant forall j :: 0 <= j < i ==> entries[j].key != Key(ifindex, tid, rid)
        decreases |nodes| - i
      {
        assert NodeOk(i);
        if found.tid == tid && found.rid == rid && found.ifindex == ifindex {
          break;
        }
        found, i := found.next, i + 1;
      }
      FindIs(entries, Key(ifindex, tid, rid), i);
    }

    /** Opens a socket for a new entry at the front; if anything fails, nothing is left behind. */
    method OpenConnection(ifindex: UInt32, tid: UInt32, rid: UInt32, os: Os) returns (conn: Connection?)
      requires Valid() && Fresh(Reg(), os)
      modifies this, nodes
      ensures Valid()
      ensures !os.Works? ==> conn == null && Reg() == old(Reg()) && nodes == old(nodes)
      ensures os.Works? ==>
                var key := Key(ifindex, tid, rid);
                && Reg() == Registry([Entry(key, os.fd, 1)] + old(entries), old(held)[os.fd := At(key)])
                && fresh(conn) && conn.s == os.fd && nodes == [conn] + old(nodes)
    {
      hide Valid;
      if os.SocketFails? {
        return null;
      }
      var s := os.fd;
      held := held[s := Unbound];
      if os.BindFails? {
        held := held - {s};
        assert held == old(held);
        return null;
      }
      held := held[s := At(Key(ifindex, tid, rid))];
      if os.MallocFails? {
        held := held - {s};
        assert held == old(held);
        return null;
      }
      conn := new Connection();
      conn.s := s;
      conn.tid := tid;
      conn.rid := rid;
      conn.ifindex := ifindex;
      conn.refcount := 1;
      PushFront(conn, Entry(Key(ifindex, tid, rid), s, 1));
    }

    method PushFront(conn: Connection, ghost e: Entry)
      requires Valid() && conn !in nodes && conn.Mirrors(e)
      modifies this, nodes, conn
      ensures Valid() && nodes == [conn] + old(nodes) && entries == [e] + old(entries) && held == old(held)
      ensures conn.Mirrors(e)
    {
      conn.prev := null;
      conn.next := head;
      if head != null {
        head.prev := conn;
      }
      head := conn;
      nodes, entries := [conn] + nodes, [e] + entries;
      forall i: nat | i < |nodes|
        ensures NodeOk(i)
      {
        if i > 0 {
          assert old(NodeOk(i - 1));
        }
      }
    }

    /** Drops one reference; the last one closes the socket and unlinks the node. */
    method CloseConnection(conn: Connection?, ghost k: nat)
      requires Valid() && (conn != null ==> k < |nodes| && conn == nodes[k])
      modifies this, nodes
      ensures Valid()
      ensures nodes == old(nodes) || (k < |old(nodes)| && nodes == Without(old(nodes), k))
      ensures conn == null ==> Reg() == old(Reg())
      ensures conn != null ==>
                var e := old(entries)[k];
                Reg() == if e.refcount == 1 then Registry(Without(old(entries), k), old(held) - {e.socket})
                         else Registry(old(entries)[k := e.(refcount := e.refcount - 1)], old(held))
    {
      if conn == null {
        return;
      }
      assert NodeOk(k);
      SetCount(conn, conn.refcount - 1, k);
      assert NodeOk(k);
      if conn.refcount == 0 {
        held := held - {conn.s};
        Unlink(conn, k);
      }
    }

    method SetCount(conn: Connection, n: int, ghost k: nat)
      requires Valid() && k < |nodes| && conn == nodes[k]
      modifies conn`refcount, `entries
      ensures Valid() && conn.refcount == n && entries == old(entries)[k := old(entries)[k].(refcount := n)]
    {
      assert NodeOk(k);
      conn.refcount := n;
      entries := entries[k := entries[k].(refcount := n)];
      forall i: nat | i < |nodes|
        ensures NodeOk(i)
      {
        assert old(NodeOk(i));
      }
    }

    method Unlink(conn: Connection, ghost k: nat)
      requires Valid() && k < |nodes| && conn == nodes[k]
      modifies this, nodes
      ensures Valid() && nodes == Without(old(nodes), k) && entries == Without(old(entries), k) && held == old(held)
    {
      assert NodeOk(k);
      var prev, next := conn.prev, conn.next;
      if prev != null {
        assert NodeOk(k - 1);
        prev.next := next;
      } else {
        head := next;
      }
      if next != null {
        assert old(NodeOk(k + 1));
        next.prev := prev;
      }
      WithoutAt(nodes, k);
      WithoutAt(entries, k);
      nodes, entries := Without(nodes, k), Without(entries, k);
      hide Without, Connection.Mirrors;
      forall i: nat | i < |nodes|
        ensures NodeOk(i)
      {
        assert old(NodeOk(if i < k then i else i + 1));
      }
    }

    /** Answers one open or close request; a short payload is ignored. */
    method HandleSocketRequest(request: seq<Byte>, shouldOpen: bool, os: Os) returns (reply: Reply)
      requires Valid() && Fresh(Reg(), os)
      modifies this, nodes
      ensures Valid() && Grown(old(nodes))
      ensures |request| < 12 ==> reply == Silence && Reg() == old(Reg())
      ensures |request| >= 12 ==>
                var key := Key(AsUInt32(request, 0), AsUInt32(request, 4), AsUInt32(request, 8));
                (Reg(), reply) == Step(old(Reg()), Request(if shouldOpen then Open else Close, key), os)
    {
      hide Valid, Fresh, AsUInt32, Find;
      if |request| < 12 {
        return Silence;
      }
      var ifindex, tid, rid := AsUInt32(request, 0), AsUInt32(request, 4), AsUInt32(request, 8);
      var found := Matching(ifindex, tid, rid);
      ghost var k := Find(entries, Key(ifindex, tid, rid));
      SameLength();
      if shouldOpen {
        if found != null {
          CountAt(k);
          SetCount(found, found.refcount + 1, k);
        } else {
          found := OpenConnection(ifindex, tid, rid, os);
          if found == null {
            return OpenSocketError;
          }
        }
        reply := SuccessWithSocket(found.s);
      } else if found != null {
        CloseConnection(found, k);
        reply := Success;
      } else {
        reply := NoSuchSocket;
      }
    }

    /** Every node is an old one or was allocated since. */
    twostate predicate Grown(was: seq<Connection>)
      reads `nodes
    {
      forall k :: 0 <= k < |nodes| ==> nodes[k] in was || fresh(nodes[k])
    }

    lemma SameLength()
      requires Valid()
      ensures |nodes| == |entries|
    {
    }

    lemma CountAt(k: nat)
      requires Valid() && k < |nodes|
      ensures |nodes| == |entries| && nodes[k].Mirrors(entries[k])
    {
      assert NodeOk(k);
    }

    /** The dispatcher: what is not understood is ignored. */
    method HandleMessage(message: seq<Byte>, os: Os) returns (reply: Reply)
      requires Valid() && Fresh(Reg(), os)
      modifies this, nodes
      ensures Valid() && Grown(old(nodes))
      ensures (Reg(), reply) == React(old(Reg()), Event(message, os))
    {
      hide Valid, Fresh, Step;
      reply := Silence;
      if |message| < HEADER_SIZE {
        return;
      }
      var apiVersion, requestType := AsUInt16(message, 0), AsUInt16(message, 2);
      if apiVersion == 1 {
        var payload := message[HEADER_SIZE..];
        if requestType == KindCode(Open) {
          reply := HandleSocketRequest(payload, true, os);
        } else if requestType == KindCode(Close) {
          reply := HandleSocketRequest(payload, false, os);
        }
      }
    }
  }

  /** The server loop over a run of messages: the list it leaves behind is accounted for. */
  method Serve(events: seq<Event>) returns (daemon: Daemon)
    requires RunOk(events)
    ensures fresh(daemon) && daemon.Valid()
    ensures daemon.Reg() == After(events, |events|) && RegistryOk(daemon.Reg())
    ensures forall key :: RefCount(daemon.Reg(), key)
                          == Successes(events, |events|, Open, key) - Successes(events, |events|, Close, key)
  {
    daemon := new Daemon();
    var i := 0;
    while i < |events|
      invariant i <= |events| && fresh(daemon) && daemon.Valid()
      invariant forall k :: 0 <= k < |daemon.nodes| ==> fresh(daemon.nodes[k])
      invariant daemon.Reg() == After(events, i)
    {
      hide After, React, Fresh, RunOk, Daemon.Valid;
      assert Fresh(daemon.Reg(), events[i].os) by { FreshAt(events, i); }
      var reply := daemon.HandleMessage(events[i].message, events[i].os);
      AfterNext(events, i);
      i := i + 1;
    }
    forall key
      ensures RegistryOk(daemon.Reg())
      ensures RefCount(daemon.Reg(), key) == Successes(events, |events|, Open, key) - Successes(events, |events|, Close, key)
    {
      RunIsAccounted(events, |events|, key);
    }
    RunIsAccounted(events, |events|, Key(0, 0, 0));
  }

  lemma FreshAt(events: seq<Event>, i: nat)
    requires RunOk(events) && i < |events|
    ensures Fresh(After(events, i), events[i].os)
  {
  }

  lemma AfterNext(events: seq<Event>, i: nat)
    requires i < |events|
    ensures After(events, i + 1) == React(After(events, i), Event(events[i].message, events[i].os)).0
  {
  }

  // ---------- the client ----------

  /** Copies data to the buffer and moves the position past it. */
  method Pack(buffer: array<Byte>, p: nat, data: seq<Byte>) returns (p': nat)
    requires p + |data| <= buffer.Length
    modifies buffer
    ensures p' == p + |data|
    ensures buffer[..p'] == old(buffer[..p]) + data && buffer[p'..] == old(buffer[p'..])
  {
    var i := 0;
    while i < |data|
      invariant i <= |data|
      invariant buffer[..p + i] == old(buffer[..p]) + data[..i] && buffer[p + i..] == old(buffer[p + i..])
    {
      buffer[p + i] := data[i];
      i := i + 1;
    }
    p' := p + |data|;
  }

  /** The request a client sends: every byte of it is written, and the daemon reads back what was meant. */
  method Marshal(ifindex: UInt32, tid: UInt32, rid: UInt32, shouldOpen: bool) returns (request: array<Byte>)
    ensures fresh(request) && request.Length == REQUEST_SIZE
    ensures Decode(request[..]) == Understood(Request(if shouldOpen then Open else Close, Key(ifindex, tid, rid)))
    ensures request[..4] == [1, 0, if shouldOpen then 0 else 1, 0]
    ensures WordAt(request[..], 4, ifindex) && WordAt(request[..], 8, tid) && WordAt(request[..], 12, rid)
  {
    hide Le16, Le32, Decode;
    var kind := if shouldOpen then Open else Close;
    request := new Byte[REQUEST_SIZE];
    var p := Pack(request, 0, Le16(API_VERSION));
    p := Pack(request, p, Le16(KindCode(kind)));
    p := Pack(request, p, Le32(ifindex));
    p := Pack(request, p, Le32(tid));
    p := Pack(request, p, Le32(rid));
    assert request[..] == request[..p] == Wire(Request(kind, Key(ifindex, tid, rid)));
    WireRoundTrip(Request(kind, Key(ifindex, tid, rid)));
    WireIs(Request(kind, Key(ifindex, tid, rid)));
    assert request[..4] == request[..][..4];
  }
}
