/** The policy store over a file map: storing, reading back, flushing and listing policies. */
module PapStore {
  import opened Machine
  import opened PapRecord
  import opened PapIndex

  const INDEX_PATH := "stored_policies/stored_policies.txt"

  /** sprintf(pol_path, "stored_policies/%s.txt", id). */
  function PolicyPath(id: string): (path: string)
    ensures |path| == |id| + 20
  {
    "stored_policies/" + id + ".txt"
  }

  lemma PathsDiffer(id: string, other: string)
    requires IsId(id) && IsId(other)
    ensures PolicyPath(id) != INDEX_PATH
    ensures PolicyPath(id) == PolicyPath(other) ==> id == other
  {
    assert PolicyPath(id)[16..16 + |id|] == id;
    assert PolicyPath(other)[16..16 + |other|] == other;
  }

  // ---------- what a run of stores and flushes does ----------

  datatype Op = Store(id: string, record: Record) | Flush(id: string)

  /** The ids in the index, in order, and what was stored in each policy's file. */
  datatype Shelf = Shelf(ids: seq<string>, files: map<string, Record>)

  /** Whether the operation returns TRUE. */
  ghost predicate Succeeds(s: Shelf, op: Op) {
    match op
    case Store(_, r) => r.object_ != ""
    case Flush(id) => id in s.files
  }

  ghost predicate ShelfOk(s: Shelf) {
    AllIds(s.ids) && forall id :: id in s.files ==> id in s.ids && Readable(s.files[id])
  }

  ghost predicate OpOk(op: Op) {
    IsId(op.id) && (op.Store? ==> Readable(op.record))
  }

  ghost function Step(s: Shelf, op: Op): Shelf
    requires ShelfOk(s)
  {
    if !Succeeds(s, op) then s
    else match op
      case Store(id, r) => Shelf(s.ids + [id], s.files[id := r])
      case Flush(id) => Shelf(Without(s.ids, FirstIndex(s.ids, id)), s.files - {id})
  }

  function Count(ids: seq<string>, id: string): nat {
    multiset(ids)[id]
  }

  lemma CountWithout(ids: seq<string>, k: nat)
    requires k < |ids|
    ensures multiset(Without(ids, k)) == multiset(ids) - multiset{ids[k]}
  {
    assert ids == ids[..k] + ([ids[k]] + ids[k + 1..]);
  }

  lemma MembersWithout(ids: seq<string>, k: nat)
    requires k < |ids|
    ensures forall id :: id in Without(ids, k) ==> id in ids
    ensures forall id :: id in ids && id != ids[k] ==> id in Without(ids, k)
  {
    var rest := Without(ids, k);
    forall id | id in ids && id != ids[k]
      ensures id in rest
    {
      var i :| 0 <= i < |ids| && ids[i] == id;
      assert rest[if i < k then i else i - 1] == id;
    }
  }

  /** An id with a file is counted at least once. */
  ghost predicate Accounted(s: Shelf) {
    ShelfOk(s) && forall id :: id in s.files ==> 1 <= Count(s.ids, id)
  }

  lemma FlushCounts(s: Shelf, id: string, other: string)
    requires Accounted(s) && id in s.files
    ensures var s' := Step(s, Flush(id));
            && ShelfOk(s')
            && Count(s'.ids, other) == Count(s.ids, other) - (if id == other then 1 else 0)
            && (other in s'.files ==> 1 <= Count(s'.ids, other))
  {
    hide IsId;
    var k := FirstIndex(s.ids, id);
    CountWithout(s.ids, k);
    MembersWithout(s.ids, k);
  }

  /** Flushing takes one occurrence of its id away, storing adds one, and neither touches any other id's count. */
  lemma StepCounts(s: Shelf, op: Op, id: string)
    requires Accounted(s) && OpOk(op)
    ensures ShelfOk(Step(s, op))
    ensures Count(Step(s, op).ids, id) ==
            Count(s.ids, id) + (if op.id == id && Succeeds(s, op) then if op.Store? then 1 else -1 else 0)
    ensures id in Step(s, op).files ==> 1 <= Count(Step(s, op).ids, id)
  {
    hide IsId, Without;
    if op.Flush? && Succeeds(s, op) {
      FlushCounts(s, op.id, id);
    } else if op.Store? && Succeeds(s, op) {
      assert multiset(s.ids + [op.id]) == multiset(s.ids) + multiset{op.id};
    }
  }

  lemma StepKeepsAccounted(s: Shelf, op: Op)
    requires Accounted(s) && OpOk(op)
    ensures Accounted(Step(s, op))
  {
    StepCounts(s, op, op.id);
    forall id | id in Step(s, op).files
      ensures 1 <= Count(Step(s, op).ids, id)
    {
      StepCounts(s, op, id);
    }
  }

  ghost predicate RunOk(ops: seq<Op>) {
    forall i :: 0 <= i < |ops| ==> OpOk(ops[i])
  }

  function Empty(): Shelf {
    Shelf([], map[])
  }

  /** The shelf after the first n operations, from an empty directory. */
  ghost function After(ops: seq<Op>, n: nat): (s: Shelf)
    requires n <= |ops| && RunOk(ops)
    ensures Accounted(s)
  {
    if n == 0 then Empty()
    else
      StepKeepsAccounted(After(ops, n - 1), ops[n - 1]);
      Step(After(ops, n - 1), ops[n - 1])
  }

  /** How many of the first n operations were stores of id that succeeded. */
  ghost function Stores(ops: seq<Op>, n: nat, id: string): nat
    requires n <= |ops| && RunOk(ops)
  {
    if n == 0 then 0
    else Stores(ops, n - 1, id) + (if ops[n - 1].Store? && ops[n - 1].id == id && Succeeds(After(ops, n - 1), ops[n - 1]) then 1 else 0)
  }

  /** How many of the first n operations were flushes of id that succeeded. */
  ghost function Flushes(ops: seq<Op>, n: nat, id: string): nat
    requires n <= |ops| && RunOk(ops)
  {
    if n == 0 then 0
    else Flushes(ops, n - 1, id) + (if ops[n - 1].Flush? && ops[n - 1].id == id && Succeeds(After(ops, n - 1), ops[n - 1]) then 1 else 0)
  }

  /** Over every run an id occurs in the index once for each successful store not yet undone by a successful flush. */
  lemma {:induction false} IndexIsConserved(ops: seq<Op>, n: nat, id: string)
    requires n <= |ops| && RunOk(ops)
    ensures Count(After(ops, n).ids, id) == Stores(ops, n, id) - Flushes(ops, n, id)
    ensures id in After(ops, n).files ==> Flushes(ops, n, id) < Stores(ops, n, id)
  {
    if n > 0 {
      IndexIsConserved(ops, n - 1, id);
      StepCounts(After(ops, n - 1), ops[n - 1], id);
    }
  }

  // ---------- stores over a file that is there ----------

  /** Operation i succeeds as a store of id while id has a file already. */
  ghost predicate StoresOver(ops: seq<Op>, i: nat, id: string)
    requires i < |ops| && RunOk(ops)
  {
    var s := After(ops, i);
    ops[i].Store? && ops[i].id == id && Succeeds(s, ops[i]) && id in s.files
  }

  /** How many of the first n operations did that. */
  ghost function Overwrites(ops: seq<Op>, n: nat, id: string): nat
    requires n <= |ops| && RunOk(ops)
  {
    if n == 0 then 0 else Overwrites(ops, n - 1, id) + if StoresOver(ops, n - 1, id) then 1 else 0
  }

  /** Each leaves one entry in the index for good: no flush ever clears it. */
  lemma {:induction false} OverwritesStayInIndex(ops: seq<Op>, n: nat, id: string)
    requires n <= |ops| && RunOk(ops)
    ensures Count(After(ops, n).ids, id) == Overwrites(ops, n, id) + if id in After(ops, n).files then 1 else 0
  {
    hide Accounted, Without;
    if n > 0 {
      OverwritesStayInIndex(ops, n - 1, id);
      StepCounts(After(ops, n - 1), ops[n - 1], id);
    }
  }

  lemma {:induction false} NoOverwrites(ops: seq<Op>, n: nat, id: string)
    requires n <= |ops| && RunOk(ops)
    ensures Overwrites(ops, n, id) == 0 <==> forall i: nat :: i < n ==> !StoresOver(ops, i, id)
  {
    hide StoresOver;
    if n > 0 {
      NoOverwrites(ops, n - 1, id);
    }
  }

  ghost predicate OnceIfStored(s: Shelf, id: string) {
    Count(s.ids, id) == if id in s.files then 1 else 0
  }

  /** The index lists each stored policy once, and nothing else, exactly when no store succeeded over a file that was there. */
  lemma IndexIsStoredSetIff(ops: seq<Op>, n: nat)
    requires n <= |ops| && RunOk(ops)
    ensures (forall id :: OnceIfStored(After(ops, n), id)) <==>
            (forall i: nat, id {:trigger StoresOver(ops, i, id)} :: i < n ==> !StoresOver(ops, i, id))
  {
    var s := After(ops, n);
    hide StoresOver, Accounted, After;
    forall id
      ensures OnceIfStored(s, id) <==> forall i: nat :: i < n ==> !StoresOver(ops, i, id)
    {
      OverwritesStayInIndex(ops, n, id);
      NoOverwrites(ops, n, id);
    }
    if i: nat, id :| i < n && StoresOver(ops, i, id) {
      assert !OnceIfStored(s, id);
    }
  }

  /** A policy stored twice and flushed once has no file, and one entry in the index. */
  lemma StoredTwiceStaysListed(ops: seq<Op>, id: string, r: Record)
    requires IsId(id) && Readable(r) && r.object_ != "" && ops == [Store(id, r), Store(id, r), Flush(id)]
    ensures RunOk(ops) && id !in After(ops, 3).files && Count(After(ops, 3).ids, id) == 1
  {
    hide IsId, Readable;
    assert After(ops, 0) == Empty();
    assert id in After(ops, 1).files && id in After(ops, 2).files && id !in After(ops, 3).files;
    assert StoresOver(ops, 1, id) && !StoresOver(ops, 0, id);
    assert Overwrites(ops, 3, id) == Overwrites(ops, 1, id) + 1 == Overwrites(ops, 0, id) + 1;
    OverwritesStayInIndex(ops, 3, id);
  }

  ghost predicate Distinct(ids: seq<string>) {
    forall i, j :: 0 <= i < j < |ids| ==> ids[i] != ids[j]
  }

  lemma TwiceIsCounted(ids: seq<string>, i: nat, j: nat)
    requires i < j < |ids| && ids[i] == ids[j]
    ensures Count(ids, ids[i]) >= 2
  {
    assert ids == ids[..j] + ids[j..];
    assert ids[..j][i] == ids[i] && ids[j..][0] == ids[i];
    assert ids[i] in multiset(ids[..j]) && ids[i] in multiset(ids[j..]);
    assert multiset(ids) == multiset(ids[..j]) + multiset(ids[j..]);
  }

  /** In that case the index has no duplicates and its members are the stored policies. */
  lemma OnceMeansDistinct(s: Shelf)
    requires forall id :: OnceIfStored(s, id)
    ensures Distinct(s.ids) && forall id :: id in s.ids <==> id in s.files
  {
    forall i, j | 0 <= i < j < |s.ids|
      ensures s.ids[i] != s.ids[j]
    {
      assert OnceIfStored(s, s.ids[i]);
      if s.ids[i] == s.ids[j] {
        TwiceIsCounted(s.ids, i, j);
      }
    }
    forall id
      ensures id in s.ids <==> id in s.files
    {
      assert OnceIfStored(s, id);
      assert id in s.ids <==> id in multiset(s.ids);
    }
  }

  /** If ids are only stored successfully while they have no file, the index is duplicate-free and equals the stored set. */
  lemma GuardedIndexIsStoredSet(ops: seq<Op>, n: nat)
    requires n <= |ops| && RunOk(ops)
    requires forall i: nat, id {:trigger StoresOver(ops, i, id)} :: i < n ==> !StoresOver(ops, i, id)
    ensures Distinct(After(ops, n).ids)
    ensures forall id :: id in After(ops, n).ids <==> id in After(ops, n).files
  {
    var s := After(ops, n);
    hide StoresOver, Accounted, After;
    forall id
      ensures OnceIfStored(s, id)
    {
      OverwritesStayInIndex(ops, n, id);
      NoOverwrites(ops, n, id);
    }
    OnceMeansDistinct(s);
  }

  // ---------- what the files hold ----------

  /** Operation i is the last of the first n that succeeded on id. */
  ghost predicate LastOn(ops: seq<Op>, n: nat, id: string, i: nat)
    requires n <= |ops| && RunOk(ops)
  {
    && i < n && ops[i].id == id && Succeeds(After(ops, i), ops[i])
    && forall j: nat :: i < j < n && ops[j].id == id ==> !Succeeds(After(ops, j), ops[j])
  }

  /** After every run a policy has a file exactly if the last success on its id was a store, and the file is that store's. */
  lemma {:induction false} FileIsLastStore(ops: seq<Op>, n: nat, id: string, i: nat)
    requires n <= |ops| && RunOk(ops) && LastOn(ops, n, id, i)
    ensures id in After(ops, n).files <==> ops[i].Store?
    ensures ops[i].Store? ==> After(ops, n).files[id] == ops[i].record
  {
    hide Accounted, Without;
    if i < n - 1 {
      FileIsLastStore(ops, n - 1, id, i);
    }
  }

  lemma {:induction false} NoFileWithoutStore(ops: seq<Op>, n: nat, id: string)
    requires n <= |ops| && RunOk(ops)
    requires forall i: nat :: i < n && ops[i].id == id ==> !Succeeds(After(ops, i), ops[i])
    ensures id !in After(ops, n).files
  {
    hide Accounted, Without;
    if n > 0 {
      NoFileWithoutStore(ops, n - 1, id);
    }
  }
}
