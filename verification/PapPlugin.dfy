/** The posix policy plugin: the four operations on files, and the list of all policies. */
module PapPlugin {
  import opened CStrings
  import opened Machine
  import opened PapRecord
  import opened PapIndex
  import opened PapStore

  /** The directory as a map from path to content. */
  type Disk = map<string, string>

  ghost predicate FileHolds(disk: Disk, s: Shelf, id: string) {
    && (PolicyPath(id) in disk <==> id in s.files)
    && (id in s.files ==> Readable(s.files[id]) && disk[PolicyPath(id)] == FileText(id, s.files[id]))
  }

  /** The index file lists the shelf's ids, and exactly the stored ids have a file, with what was stored in it. */
  ghost predicate Represents(disk: Disk, s: Shelf) {
    && (if INDEX_PATH in disk then disk[INDEX_PATH] == IndexText(s.ids) else s.ids == [])
    && forall id :: IsId(id) ==> FileHolds(disk, s, id)
  }

  lemma StoreRepresents(disk: Disk, s: Shelf, id: string, r: Record)
    requires Represents(disk, s) && IsId(id) && Readable(r)
    ensures Represents(disk[PolicyPath(id) := FileText(id, r)][INDEX_PATH := IndexText(s.ids + [id])],
                       Shelf(s.ids + [id], s.files[id := r]))
  {
    hide IndexText, PolicyPath, IsId, FileText, Readable;
    var disk' := disk[PolicyPath(id) := FileText(id, r)][INDEX_PATH := IndexText(s.ids + [id])];
    forall other | IsId(other)
      ensures FileHolds(disk', Shelf(s.ids + [id], s.files[id := r]), other)
    {
      PathsDiffer(id, other);
      PathsDiffer(other, id);
      assert FileHolds(disk, s, other);
    }
  }

  lemma FlushRepresents(disk: Disk, s: Shelf, id: string, ids': seq<string>)
    requires Represents(disk, s) && IsId(id)
    ensures Represents((disk - {PolicyPath(id)})[INDEX_PATH := IndexText(ids')], Shelf(ids', s.files - {id}))
  {
    hide IndexText, PolicyPath, IsId, FileText, Readable;
    var disk' := (disk - {PolicyPath(id)})[INDEX_PATH := IndexText(ids')];
    forall other | IsId(other)
      ensures FileHolds(disk', Shelf(ids', s.files - {id}), other)
    {
      PathsDiffer(id, other);
      PathsDiffer(other, id);
      assert FileHolds(disk, s, other);
    }
  }

  /** memcpy(&dst[at], &src[from], n). */
  method MemCpy(dst: array<char>, at: nat, src: array<char>, from: nat, n: nat)
    requires dst != src && at + n <= dst.Length && from + n <= src.Length
    modifies dst
    ensures forall i :: at <= i < at + n ==> dst[i] == src[i - at + from]
    ensures forall i :: 0 <= i < at || at + n <= i < dst.Length ==> dst[i] == old(dst[i])
  {
    var i := 0;
    while i < n
      invariant 0 <= i <= n
      invariant forall j :: at <= j < at + i ==> dst[j] == src[j - at + from]
      invariant forall j :: 0 <= j < at || at + i <= j < dst.Length ==> dst[j] == old(dst[j])
    {
      dst[at + i] := src[from + i];
      i := i + 1;
    }
  }

  /** Cutting n bytes out of a buffer at p, into a new one. */
  method Splice(buf: string, p: nat, n: nat) returns (r: string)
    requires p + n <= |buf|
    ensures r == buf[..p] + buf[p + n..]
  {
    var old_ := new char[|buf|](i requires 0 <= i < |buf| => buf[i]);
    var new_ := new char[|buf| - n];
    MemCpy(new_, 0, old_, 0, p);
    MemCpy(new_, p, old_, p + n, |buf| - (p + n));
    r := new_[..];
    assert forall i :: 0 <= i < p ==> r[i] == buf[i];
    assert forall i :: p <= i < |r| ==> r[i] == buf[i - p + (p + n)];
  }

  /** What acquire hands back: nothing, undefined bytes when a search fails, or the six fields and the object's size. */
  datatype Acquisition = NotStored | Garbage | Policy(record: Record, objectSize: nat)

  function AcquireText(buf: string): Acquisition {
    var f1, f2, f3 := Acquired(buf, 1), Acquired(buf, 2), Acquired(buf, 3);
    var f4, f5, f6 := Acquired(buf, 4), Acquired(buf, 5), Acquired(buf, 6);
    if f1.Text? && f2.Text? && f3.Text? && f4.Text? && f5.Text? && f6.Text? then
      Policy(Record(f1.text, f2.text, f3.text, f4.text, f5.text, f6.text), |f1.text|)
    else Garbage
  }

  lemma SixFields(buf: string, segs: seq<Segment>)
    requires |segs| == |LABELS| == 7
    ensures ReadsBack(buf, segs) <==>
            AcquireText(buf) == Policy(Record(segs[1].field, segs[2].field, segs[3].field, segs[4].field, segs[5].field, segs[6].field),
                                       |segs[1].field|)
  {
    hide Acquired;
    if AcquireText(buf) == Policy(Record(segs[1].field, segs[2].field, segs[3].field, segs[4].field, segs[5].field, segs[6].field),
                                  |segs[1].field|) {
      forall j | 0 < j < 7
        ensures Acquired(buf, j) == Text(segs[j].field)
      {
        assert j == 1 || j == 2 || j == 3 || j == 4 || j == 5 || j == 6;
      }
    }
  }

  /** Acquire gives back each field as it was stored, and the object's size, exactly when the record is clean. */
  lemma AcquireAfterStore(id: string, r: Record)
    requires Readable(r)
    ensures |r.signature| >= 128 && |r.publicKey| >= 64
    ensures Clean(Segments(id, r)) <==>
            AcquireText(FileText(id, r)) ==
            Policy(Record(object_ := r.object_, cost := CStr(r.cost), signature := r.signature[..128], publicKey := r.publicKey[..64],
                          algorithm := CStr(r.algorithm), hashFunction := CStr(r.hashFunction)), |r.object_|)
  {
    hide FileText, Clean, AcquireText, ReadsBack;
    RoundTripIffClean(id, r);
    SixFields(FileText(id, r), Segments(id, r));
  }

  /** Text fields without a NUL, and hex strings of just the lengths that are stored. */
  ghost predicate IsPlain(r: Record) {
    && NulFree(r.cost) && NulFree(r.algorithm) && NulFree(r.hashFunction)
    && |r.signature| == 128 && |r.publicKey| == 64
  }

  lemma {:induction false} CStrOfPlain(s: string)
    requires NulFree(s)
    ensures CStr(s) == s
  {
    CStrOfTerminated(s, "");
    assert s + "" == s;
  }

  lemma PlainIsWritten(r: Record)
    requires IsPlain(r)
    ensures Readable(r) && CStr(r.cost) == r.cost && CStr(r.algorithm) == r.algorithm && CStr(r.hashFunction) == r.hashFunction
    ensures r.signature[..128] == r.signature && r.publicKey[..64] == r.publicKey
  {
    CStrOfPlain(r.cost);
    CStrOfPlain(r.algorithm);
    CStrOfPlain(r.hashFunction);
    hide CStr, NulFree;
  }

  /** A plain clean record comes back as it is. */
  lemma PlainRecordComesBack(id: string, r: Record)
    requires IsPlain(r)
    ensures Readable(r) && (Clean(Segments(id, r)) <==> AcquireText(FileText(id, r)) == Policy(r, |r.object_|))
  {
    PlainIsWritten(r);
    hide FileText, Clean, AcquireText, CStr, NulFree, Segments, IsPlain;
    AcquireAfterStore(id, r);
  }

  /** The chain of fwrites that fills a policy's file. */
  method WriteRecord(id: string, r: Record) returns (text: string)
    requires Readable(r)
    ensures text == FileText(id, r) && |r.signature| >= 128 && |r.publicKey| >= 64
    ensures text ==
            "policy id:" + id + ("\n" + "policy object:") + r.object_ + ("\n" + "policy cost:") + CStr(r.cost)
            + ("\n" + "policy id signature:") + r.signature[..128] + ("\n" + "policy id signature public key:") + r.publicKey[..64]
            + ("\n" + "policy id signature sign. algorithm:") + CStr(r.algorithm) + ("\n" + "hash function:") + CStr(r.hashFunction)
  {
    hide Join, CStr, NulFree;
    ghost var segs := Segments(id, r);
    text := LABELS[0];
    text := text + id;
    assert text == Join(segs, 1) by { FirstSegment(segs); }
    text := text + ("\n" + LABELS[1]);
    text := text + r.object_;
    JoinOneMore(segs, 1);
    text := text + ("\n" + LABELS[2]);
    text := text + CStr(r.cost);
    JoinOneMore(segs, 2);
    text := text + ("\n" + LABELS[3]);
    text := text + r.signature[..SIGNATURE_LEN];
    JoinOneMore(segs, 3);
    text := text + ("\n" + LABELS[4]);
    text := text + r.publicKey[..PUBLIC_KEY_LEN];
    JoinOneMore(segs, 4);
    text := text + ("\n" + LABELS[5]);
    text := text + CStr(r.algorithm);
    JoinOneMore(segs, 5);
    text := text + ("\n" + LABELS[6]);
    text := text + CStr(r.hashFunction);
    JoinOneMore(segs, 6);
    FileTextIs(id, r);
  }

  class PolicyIdNode {
    var policyId: string
    var next: PolicyIdNode?

    constructor (id: string)
      ensures policyId == id && next == null
    {
      policyId, next := id, null;
    }
  }

  /** nodes is the linked list that starts at head. */
  ghost predicate Chain(head: PolicyIdNode?, nodes: seq<PolicyIdNode>)
    reads nodes
  {
    && (head == null <==> nodes == [])
    && (nodes != [] ==> head == nodes[0] && nodes[|nodes| - 1].next == null)
    && (forall i :: 0 <= i < |nodes| - 1 ==> nodes[i].next == nodes[i + 1])
    && (forall i, j :: 0 <= i < j < |nodes| ==> nodes[i] != nodes[j])
  }

  /** The ids held by the nodes, one for one. */
  ghost predicate Holds(nodes: seq<PolicyIdNode>, ids: seq<string>)
    reads nodes
  {
    |nodes| == |ids| && forall i :: 0 <= i < |nodes| ==> nodes[i].policyId == ids[i]
  }

  class PapPlugin {
    var disk: Disk
    ghost var shelf: Shelf

    ghost predicate Valid()
      reads this
    {
      Accounted(shelf) && Represents(disk, shelf)
    }

    constructor ()
      ensures Valid() && disk == map[] && shelf == Empty()
    {
      disk, shelf := map[], Empty();
    }

    method Store(id: string, r: Record) returns (ok: bool)
      requires Valid() && IsId(id) && Readable(r)
      modifies this
      ensures Valid() && shelf == Step(old(shelf), Op.Store(id, r)) && ok == Succeeds(old(shelf), Op.Store(id, r))
      ensures (ok <==> r.object_ != "") && (!ok ==> disk == old(disk) && shelf == old(shelf))
      ensures ok ==> shelf == Shelf(old(shelf).ids + [id], old(shelf).files[id := r])
      ensures ok ==>
                var index := "stored_policies/stored_policies.txt";
                disk == old(disk)["stored_policies/" + id + ".txt" := FileText(id, r)]
                                 [index := (if index in old(disk) then old(disk)[index] else "") + id + "|"]
    {
      hide Join, IsId, PolicyPath, FileText;
      if r.object_ == "" {
        return false;
      }
      var text := WriteRecord(id, r);
      PathsDiffer(id, id);
      PathIs(id);
      StoreRepresents(disk, shelf, id, r);
      StepKeepsAccounted(shelf, Op.Store(id, r));
      disk := disk[PolicyPath(id) := text];
      var index := if INDEX_PATH in disk then disk[INDEX_PATH] else "";
      index := index + id;
      index := index + [BAR];
      IndexOfOneMore(shelf.ids, id);
      disk := disk[INDEX_PATH := index];
      shelf := Step(shelf, Op.Store(id, r));
      ok := true;
    }

    method CheckIfStored(id: string) returns (stored: bool)
      requires Valid() && IsId(id)
      ensures stored <==> id in shelf.files
    {
      FileOf(id);
      stored := PolicyPath(id) in disk;
    }

    lemma PathIs(id: string)
      ensures PolicyPath(id) == "stored_policies/" + id + ".txt"
    {
    }

    lemma FileOf(id: string)
      requires Valid() && IsId(id)
      ensures FileHolds(disk, shelf, id)
    {
    }

    /** What comes back is the record last stored under the id, if that record is clean. */
    method Acquire(id: string) returns (a: Acquisition)
      requires Valid() && IsId(id)
      ensures a.NotStored? <==> id !in shelf.files
      ensures id in shelf.files ==>
                var r := shelf.files[id];
                && Readable(r) && a == AcquireText(FileText(id, r)) && |r.signature| >= 128 && |r.publicKey| >= 64
                && (Clean(Segments(id, r)) <==>
                    a == Policy(Record(object_ := r.object_, cost := CStr(r.cost), signature := r.signature[..128],
                                       publicKey := r.publicKey[..64], algorithm := CStr(r.algorithm),
                                       hashFunction := CStr(r.hashFunction)), |r.object_|))
                && (IsPlain(r) && Clean(Segments(id, r)) ==> a == Policy(r, |r.object_|))
    {
      hide FileText, AcquireText, Clean, Segments, CStr, NulFree;
      FileOf(id);
      if PolicyPath(id) !in disk {
        return NotStored;
      }
      AcquireAfterStore(id, shelf.files[id]);
      if IsPlain(shelf.files[id]) {
        PlainRecordComesBack(id, shelf.files[id]);
      }
      a := AcquireText(disk[PolicyPath(id)]);
      NeverNotStored(disk[PolicyPath(id)]);
    }

    /** The length is that of the object last stored under the id and of everything behind it in the file. */
    method GetPolObjLen(id: string) returns (len: int)
      requires Valid() && IsId(id)
      ensures id !in shelf.files ==> len == 0
      ensures id in shelf.files ==>
                var r := shelf.files[id];
                len == |r.object_| + |"\npolicy cost:"| + |CStr(r.cost)| + |"\npolicy id signature:"| + 128
                       + |"\npolicy id signature public key:"| + 64
                       + |"\npolicy id signature sign. algorithm:"| + |CStr(r.algorithm)| + |"\nhash function:"| + |CStr(r.hashFunction)|
    {
      hide FileText, PolObjLen;
      FileOf(id);
      if PolicyPath(id) !in disk {
        return 0;
      }
      IdIsPlain(id);
      PolObjLenIs(id, shelf.files[id]);
      len := PolObjLen(disk[PolicyPath(id)]);
    }

    /** The entry that flush cuts out always exists and is a whole entry of the index. */
    method Flush(id: string) returns (ok: bool)
      requires Valid() && IsId(id)
      modifies this
      ensures Valid() && shelf == Step(old(shelf), Op.Flush(id)) && ok == Succeeds(old(shelf), Op.Flush(id))
      ensures ok <==> id in old(shelf).files
      ensures disk == if ok then (old(disk) - {"stored_policies/" + id + ".txt"})[INDEX_PATH := IndexText(shelf.ids)] else old(disk)
    {
      hide IsId, PolicyPath, IndexText, StrStr, FirstIndex, FileText, Readable;
      FileOf(id);
      if PolicyPath(id) !in disk {
        return false;
      }
      ghost var ids, k := shelf.ids, FirstIndex(shelf.ids, id);
      PathsDiffer(id, id);
      PathIs(id);
      FirstIndexOf(ids, id);
      FlushRepresents(disk, shelf, id, Without(ids, k));
      StepKeepsAccounted(shelf, Op.Flush(id));
      SearchFindsEntry(ids, id);
      SpliceRemovesEntry(ids, k);
      disk := disk - {PolicyPath(id)};
      var buf := disk[INDEX_PATH];
      var p := StrStr(buf, id);
      var new_ := Splice(buf, p, ENTRY_LEN);
      disk := disk[INDEX_PATH := new_];
      shelf := Step(shelf, Op.Flush(id));
      ok := true;
    }

    /** Appends one list element per index entry, in index order, behind whatever the caller's list held. */
    method AcquireAll(head: PolicyIdNode?, ghost nodes: seq<PolicyIdNode>, ghost held: seq<string>)
        returns (ok: bool, head': PolicyIdNode?, ghost nodes': seq<PolicyIdNode>)
      requires Valid() && Chain(head, nodes) && Holds(nodes, held)
      modifies nodes
      ensures ok <==> INDEX_PATH in disk
      ensures Chain(head', nodes') && nodes <= nodes'
      ensures Holds(nodes', held + (if ok then shelf.ids else []))
    {
      head', nodes' := head, nodes;
      if INDEX_PATH !in disk {
        return false, head', nodes';
      }
      var toks := Tokens(disk[INDEX_PATH], 0);
      TokensOfIndex(shelf.ids, 0);
      assert toks == shelf.ids;
      hide Valid, IndexText, Tokens;
      var i := 0;
      while i < |toks|
        invariant 0 <= i <= |toks|
        invariant Chain(head', nodes') && nodes <= nodes'
        invariant forall j :: |nodes| <= j < |nodes'| ==> fresh(nodes'[j])
        invariant Holds(nodes', held + toks[..i])
      {
        forall n | n in nodes'
          ensures n in nodes || fresh(n)
        {
          var j :| 0 <= j < |nodes'| && nodes'[j] == n;
          assert j < |nodes| ==> nodes'[j] == nodes[j];
        }
        head', nodes' := Append(head', nodes', toks[i], held + toks[..i]);
        assert held + toks[..i + 1] == held + toks[..i] + [toks[i]];
        i := i + 1;
      }
      assert toks[..i] == toks;
      ok := true;
    }
  }

  /** The plugin after a run of operations, from an empty directory. */
  method Run(ops: seq<Op>) returns (p: PapPlugin)
    requires RunOk(ops)
    ensures fresh(p) && p.Valid() && p.shelf == After(ops, |ops|)
  {
    p := new PapPlugin();
    var i := 0;
    while i < |ops|
      invariant 0 <= i <= |ops| && fresh(p) && p.Valid() && p.shelf == After(ops, i)
    {
      assert OpOk(ops[i]);
      match ops[i] {
        case Store(id, r) => var _ := p.Store(id, r);
        case Flush(id) => var _ := p.Flush(id);
      }
      i := i + 1;
    }
  }

  lemma NeverNotStored(buf: string)
    ensures !AcquireText(buf).NotStored?
  {
  }

  lemma IdIsPlain(id: string)
    requires IsId(id)
    ensures NulFree(id) && ':' !in id
  {
  }

  lemma IndexOfOneMore(ids: seq<string>, id: string)
    ensures IndexText(ids + [id]) == IndexText(ids) + id + [BAR]
  {
    assert (ids + [id])[..|ids|] == ids;
    assert IndexText(ids) + (id + [BAR]) == IndexText(ids) + id + [BAR];
  }

  lemma FirstIndexOf(ids: seq<string>, id: string)
    requires id in ids
    ensures FirstIndex(ids, id) < |ids| && ids[FirstIndex(ids, id)] == id
  {
  }

  /** Walks to the tail and links a new element there, or makes it the head of an empty list. */
  method Append(head: PolicyIdNode?, ghost nodes: seq<PolicyIdNode>, id: string, ghost held: seq<string>)
      returns (head': PolicyIdNode?, ghost nodes': seq<PolicyIdNode>)
    requires Chain(head, nodes) && Holds(nodes, held)
    modifies nodes
    ensures Chain(head', nodes') && |nodes'| == |nodes| + 1 && nodes <= nodes' && fresh(nodes'[|nodes|])
    ensures Holds(nodes', held + [id])
  {
    var elem := new PolicyIdNode(id);
    nodes' := nodes + [elem];
    if head == null {
      head' := elem;
    } else {
      head' := head;
      var temp := head;
      ghost var k := 0;
      while temp.next != null
        invariant 0 <= k < |nodes| && temp == nodes[k]
        invariant temp.next == if k + 1 < |nodes| then nodes[k + 1] else null
        decreases |nodes| - k
      {
        temp := temp.next;
        k := k + 1;
      }
      temp.next := elem;
      assert forall i :: 0 <= i < |nodes| - 1 ==> nodes[i].next == nodes'[i + 1];
      assert forall i :: 0 <= i < |nodes'| - 1 ==> nodes'[i].next == nodes'[i + 1];
    }
  }
}
