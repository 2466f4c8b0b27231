/** A stored policy as labelled text, and reading it back with first-match substring search. */
module PapRecord {
  import opened CStrings

  // ---------- strstr ----------

  /** The first match of pat in text at or after position i, or -1. */
  function FirstMatchFrom(text: string, pat: string, i: nat): (r: int)
    requires i <= |text|
    ensures r == -1 || i <= r <= |text|
    ensures r != -1 ==> MatchAt(text, pat, r)
    ensures forall p :: i <= p && (r == -1 || p < r) ==> !MatchAt(text, pat, p)
    decreases |text| - i
  {
    if i + |pat| > |text| then -1
    else if text[i..i + |pat|] == pat then i
    else if i == |text| then -1
    else FirstMatchFrom(text, pat, i + 1)
  }

  /** strstr(buf, pat) - buf: the search stops at the buffer's first NUL; -1 stands for NULL. */
  function StrStr(buf: string, pat: string): (r: int)
    ensures r == -1 || MatchAt(CStr(buf), pat, r)
    ensures forall p :: r == -1 || p < r ==> !MatchAt(CStr(buf), pat, p)
  {
    FirstMatchFrom(CStr(buf), pat, 0)
  }

  lemma StrStrIs(buf: string, pat: string, r: nat)
    requires MatchAt(CStr(buf), pat, r) && forall p :: 0 <= p < r ==> !MatchAt(CStr(buf), pat, p)
    ensures StrStr(buf, pat) == r
  {
    assert MatchAt(CStr(buf), pat, r);
  }

  // ---------- labelled text ----------

  /** A window of a window, and of a prefix, is a window. */
  lemma Within(text: string, a: nat, b: nat, p: nat, q: nat)
    requires a <= p <= q <= b <= |text|
    ensures text[a..b][p - a..q - a] == text[p..q]
  {
    var inner, outer := text[a..b][p - a..q - a], text[p..q];
    forall i | 0 <= i < q - p
      ensures inner[i] == outer[i]
    {
      assert inner[i] == text[a..b][p - a + i] == text[p + i];
    }
  }

  lemma SamePart(before: string, text: string, a: nat, b: nat)
    requires before <= text && a <= b <= |before|
    ensures text[a..b] == before[a..b]
  {
    Within(text, 0, |before|, a, b);
  }

  /** One labelled field. */
  datatype Segment = Segment(head: string, field: string)

  /** A label ends in its only colon and stays on one line. */
  ghost predicate IsLabel(l: string) {
    && 3 <= |l| && l[|l| - 1] == ':'
    && forall i :: 0 <= i < |l| ==> l[i] != '\n' && l[i] != NUL && (i < |l| - 1 ==> l[i] != ':')
  }

  /** The letter that tells the labels of a record apart. */
  function Tag(l: string): char
    requires 3 <= |l|
  {
    l[|l| - 3]
  }

  ghost predicate Labelled(segs: seq<Segment>) {
    && (forall i :: 0 <= i < |segs| ==> IsLabel(segs[i].head))
    && (forall i, j :: 0 <= i < j < |segs| ==> Tag(segs[i].head) != Tag(segs[j].head))
  }

  /** The first n segments on consecutive lines. */
  function Join(segs: seq<Segment>, n: nat): string
    requires n <= |segs|
  {
    if n == 0 then ""
    else if n == 1 then segs[0].head + segs[0].field
    else Join(segs, n - 1) + ("\n" + (segs[n - 1].head + segs[n - 1].field))
  }

  /** Where segment i starts. */
  function Start(segs: seq<Segment>, i: nat): nat
    requires i <= |segs|
  {
    if i == 0 then 0 else Start(segs, i - 1) + |segs[i - 1].head| + |segs[i - 1].field| + 1
  }

  function FieldStart(segs: seq<Segment>, i: nat): nat
    requires i < |segs|
  {
    Start(segs, i) + |segs[i].head|
  }

  function FieldEnd(segs: seq<Segment>, i: nat): nat
    requires i < |segs|
  {
    Start(segs, i) + |segs[i].head| + |segs[i].field|
  }

  /** Segment i stands in text where Start says, with a newline before it unless it is the first. */
  ghost predicate SegmentAt(text: string, segs: seq<Segment>, i: nat)
    requires i < |segs|
  {
    && FieldEnd(segs, i) <= |text|
    && text[Start(segs, i)..FieldStart(segs, i)] == segs[i].head
    && text[FieldStart(segs, i)..FieldEnd(segs, i)] == segs[i].field
    && (0 < i ==> text[Start(segs, i) - 1] == '\n')
  }

  lemma Appended(text: string, head: string, field: string)
    ensures var t := text + ("\n" + (head + field));
            && |t| == |text| + 1 + |head| + |field|
            && text <= t
            && t[|text|] == '\n'
            && t[|text| + 1..|text| + 1 + |head|] == head
            && t[|text| + 1 + |head|..] == field
  {
    var t := text + ("\n" + (head + field));
    assert t[|text| + 1..] == head + field;
  }

  lemma {:induction false} JoinIsLaidOut(segs: seq<Segment>, n: nat)
    requires 0 < n <= |segs|
    ensures |Join(segs, n)| == FieldEnd(segs, n - 1)
    ensures forall i: nat :: i < n ==> SegmentAt(Join(segs, n), segs, i)
  {
    if n > 1 {
      var before, text := Join(segs, n - 1), Join(segs, n);
      JoinIsLaidOut(segs, n - 1);
      Appended(before, segs[n - 1].head, segs[n - 1].field);
      forall i: nat | i < n
        ensures SegmentAt(text, segs, i)
      {
        if i < n - 1 {
          assert SegmentAt(before, segs, i);
          SamePart(before, text, Start(segs, i), FieldStart(segs, i));
          SamePart(before, text, FieldStart(segs, i), FieldEnd(segs, i));
        }
      }
    }
  }

  /** In one segment a label can only match as the whole label of the segment, or inside its field. */
  lemma MatchInSegment(l: string, field: string, pat: string, p: nat)
    requires IsLabel(l) && IsLabel(pat) && MatchAt(l + field, pat, p)
    ensures (p < |l| ==> p + |pat| == |l| && Tag(l) == Tag(pat)) && (|l| <= p ==> MatchAt(field, pat, p - |l|))
  {
    var text := l + field;
    assert forall i :: 0 <= i < |pat| ==> pat[i] == text[p..p + |pat|][i] == text[p + i];
    if p < |l| {
      var colon := if p + |pat| > |l| then |l| - 1 - p else |pat| - 1;
      assert pat[colon] == text[p + colon] == l[p + colon];
      assert Tag(pat) == text[p + |pat| - 3];
    } else {
      Within(text, |l|, |text|, p, p + |pat|);
      assert text[|l|..] == field;
    }
  }

  /** The segment whose line holds position p. */
  lemma {:induction false} SegmentOf(segs: seq<Segment>, n: nat, p: nat) returns (i: nat)
    requires 0 < n <= |segs| && p < FieldEnd(segs, n - 1)
    ensures i < n && Start(segs, i) <= p <= FieldEnd(segs, i)
  {
    if Start(segs, n - 1) <= p {
      i := n - 1;
    } else if p == FieldEnd(segs, n - 2) {
      i := n - 2;
    } else {
      i := SegmentOf(segs, n - 1, p);
    }
  }

  lemma CharOfMatch(text: string, pat: string, p: nat, k: nat)
    requires MatchAt(text, pat, p) && k < |pat|
    ensures pat[k] == text[p + k]
  {
    assert text[p..p + |pat|][k] == text[p + k];
  }

  /** A match of a label does not run over the newline after a segment. */
  lemma MatchStaysInSegment(segs: seq<Segment>, text: string, pat: string, p: nat, i: nat)
    requires IsLabel(pat) && i < |segs| && text == Join(segs, |segs|) && MatchAt(text, pat, p)
    requires p <= FieldEnd(segs, i)
    ensures p + |pat| <= FieldEnd(segs, i)
  {
    hide Join, CStr;
    JoinIsLaidOut(segs, |segs|);
    var b := FieldEnd(segs, i);
    assert i + 1 < |segs| ==> SegmentAt(text, segs, i + 1) && Start(segs, i + 1) == b + 1;
    if b < p + |pat| {
      CharOfMatch(text, pat, p, b - p);
    }
  }

  /** Every match of a label in the joined text is the label of a segment with its tag, or lies inside one field. */
  lemma MatchInText(segs: seq<Segment>, text: string, pat: string, p: nat) returns (i: nat)
    requires Labelled(segs) && IsLabel(pat) && segs != [] && text == Join(segs, |segs|) && MatchAt(text, pat, p)
    ensures i < |segs|
    ensures if p < FieldStart(segs, i) then
              Tag(segs[i].head) == Tag(pat) && p + |pat| == FieldStart(segs, i) && Start(segs, i) <= p
            else MatchAt(segs[i].field, pat, p - FieldStart(segs, i))
  {
    hide Join;
    JoinIsLaidOut(segs, |segs|);
    i := SegmentOf(segs, |segs|, p);
    MatchStaysInSegment(segs, text, pat, p, i);
    var a, b := Start(segs, i), FieldEnd(segs, i);
    SegmentLine(segs, text, i);
    Within(text, a, b, p, p + |pat|);
    MatchInSegment(segs[i].head, segs[i].field, pat, p - a);
  }

  lemma TwoWindows(text: string, a: nat, b: nat, c: nat)
    requires a <= b <= c <= |text|
    ensures text[a..c] == text[a..b] + text[b..c]
  {
  }

  lemma SegmentLine(segs: seq<Segment>, text: string, i: nat)
    requires i < |segs| && SegmentAt(text, segs, i)
    ensures text[Start(segs, i)..FieldEnd(segs, i)] == segs[i].head + segs[i].field
  {
    TwoWindows(text, Start(segs, i), FieldStart(segs, i), FieldEnd(segs, i));
  }

  // ---------- which searches find their label ----------

  /** No field before segment j would stop the search for label j, or match it. */
  ghost predicate Lacks(segs: seq<Segment>, j: nat)
    requires j < |segs|
  {
    forall i :: 0 <= i < j ==> NulFree(segs[i].field) && !Contains(segs[i].field, segs[j].head)
  }

  lemma {:induction false} StartsIncrease(segs: seq<Segment>, i: nat, j: nat)
    requires i < j < |segs|
    ensures FieldEnd(segs, i) < Start(segs, j)
    decreases j
  {
    if i + 1 < j {
      StartsIncrease(segs, i, j - 1);
    }
  }

  lemma CStrReaches(text: string, n: nat)
    requires n <= |text| && forall p :: 0 <= p < n ==> text[p] != NUL
    ensures n <= |CStr(text)|
  {
  }

  lemma SliceChar(text: string, a: nat, b: nat, p: nat)
    requires a <= p < b <= |text|
    ensures text[p] == text[a..b][p - a]
  {
  }

  /** The characters of one segment and of the newline before it. */
  lemma SegmentNulFree(segs: seq<Segment>, text: string, i: nat, p: nat)
    requires i < |segs| && IsLabel(segs[i].head) && SegmentAt(text, segs, i)
    requires Start(segs, i) <= p + 1 && p < FieldEnd(segs, i) && (p < FieldStart(segs, i) || NulFree(segs[i].field))
    ensures text[p] != NUL
  {
    var a, b, c := Start(segs, i), FieldStart(segs, i), FieldEnd(segs, i);
    if a <= p < b {
      SliceChar(text, a, b, p);
    } else if b <= p {
      SliceChar(text, b, c, p);
    }
  }

  /** The text up to and including label j has no NUL when no earlier field has one. */
  lemma {:induction false} NulFreeToLabel(segs: seq<Segment>, text: string, j: nat)
    requires Labelled(segs) && j < |segs| && forall i: nat :: i < |segs| ==> SegmentAt(text, segs, i)
    requires forall i :: 0 <= i < j ==> NulFree(segs[i].field)
    ensures FieldStart(segs, j) <= |text| && forall p :: 0 <= p < FieldStart(segs, j) ==> text[p] != NUL
    decreases j
  {
    assert SegmentAt(text, segs, j);
    if j > 0 {
      NulFreeToLabel(segs, text, j - 1);
    }
    forall p | 0 <= p < FieldStart(segs, j)
      ensures text[p] != NUL
    {
      if 0 < j && FieldStart(segs, j - 1) <= p < FieldEnd(segs, j - 1) {
        SegmentNulFree(segs, text, j - 1, p);
      } else if j == 0 || FieldEnd(segs, j - 1) <= p {
        SegmentNulFree(segs, text, j, p);
      }
    }
  }

  lemma LabelInCStr(segs: seq<Segment>, text: string, j: nat)
    requires Labelled(segs) && j < |segs| && text == Join(segs, |segs|) && Lacks(segs, j)
    ensures SegmentAt(text, segs, j) && FieldStart(segs, j) <= |CStr(text)|
  {
    hide Join, CStr, IsLabel, NulFree, Contains;
    JoinIsLaidOut(segs, |segs|);
    NulFreeToLabel(segs, text, j);
    CStrReaches(text, FieldStart(segs, j));
  }

  lemma MatchInPrefix(text: string, pat: string, p: nat, n: nat)
    requires n <= |text| && p + |pat| <= n
    ensures MatchAt(text[..n], pat, p) <==> MatchAt(text, pat, p)
  {
    assert text[..n][p..p + |pat|] == text[p..p + |pat|];
  }

  /** A match inside a field is a match in the text, at the field's place. */
  lemma MatchInField(segs: seq<Segment>, text: string, i: nat, pat: string, q: nat)
    requires i < |segs| && SegmentAt(text, segs, i) && MatchAt(segs[i].field, pat, q)
    ensures MatchAt(text, pat, FieldStart(segs, i) + q)
  {
    var b := FieldStart(segs, i);
    Within(text, b, FieldEnd(segs, i), b + q, b + q + |pat|);
  }

  /** If no earlier field holds label j or a NUL, the first match of label j is the label of segment j. */
  lemma SearchFindsLabel(segs: seq<Segment>, text: string, j: nat)
    requires Labelled(segs) && j < |segs| && text == Join(segs, |segs|) && Lacks(segs, j)
    ensures StrStr(text, segs[j].head) == Start(segs, j)
  {
    hide Join, IsLabel, CStr, NulFree, StrStr;
    LabelInCStr(segs, text, j);
    var pat, c := segs[j].head, CStr(text);
    MatchInPrefix(text, pat, Start(segs, j), |c|);
    forall p | 0 <= p < Start(segs, j)
      ensures !MatchAt(c, pat, p)
    {
      if MatchAt(c, pat, p) {
        MatchInPrefix(text, pat, p, |c|);
        NoEarlierMatch(segs, text, j, p);
      }
    }
    StrStrIs(text, pat, Start(segs, j));
  }

  lemma LabelOf(segs: seq<Segment>, j: nat)
    requires Labelled(segs) && j < |segs|
    ensures IsLabel(segs[j].head)
    ensures forall i :: 0 <= i < |segs| && Tag(segs[i].head) == Tag(segs[j].head) ==> i == j
  {
  }

  lemma NoEarlierMatch(segs: seq<Segment>, text: string, j: nat, p: nat)
    requires Labelled(segs) && j < |segs| && text == Join(segs, |segs|) && Lacks(segs, j) && p < Start(segs, j)
    ensures !MatchAt(text, segs[j].head, p)
  {
    hide Join, IsLabel, MatchAt, CStr, NulFree, StrStr, Labelled, Tag;
    if MatchAt(text, segs[j].head, p) {
      LabelOf(segs, j);
      var i := MatchInText(segs, text, segs[j].head, p);
      if i > j {
        StartsIncrease(segs, j, i);
      }
    }
  }

  lemma FieldChar(segs: seq<Segment>, text: string, i: nat, q: nat)
    requires i < |segs| && SegmentAt(text, segs, i) && q < |segs[i].field|
    ensures text[FieldStart(segs, i) + q] == segs[i].field[q]
  {
    assert text[FieldStart(segs, i)..FieldEnd(segs, i)][q] == text[FieldStart(segs, i) + q];
  }

  lemma NulStopsSearch(text: string, pat: string, n: nat)
    requires n < |text| && text[n] == NUL && pat != ""
    ensures StrStr(text, pat) < n
  {
    assert |CStr(text)| <= n;
  }

  lemma EarlierMatchWins(text: string, pat: string, p: nat, r: nat)
    requires MatchAt(text, pat, p) && p + |pat| <= r && pat != ""
    ensures StrStr(text, pat) != r
  {
    var c := CStr(text);
    if p + |pat| <= |c| {
      MatchInPrefix(text, pat, p, |c|);
      assert c == text[..|c|];
    }
  }

  lemma NulHidesLabel(segs: seq<Segment>, text: string, j: nat, i: nat, q: nat)
    requires i < j < |segs| && SegmentAt(text, segs, i) && segs[j].head != ""
    requires q < |segs[i].field| && segs[i].field[q] == NUL
    ensures StrStr(text, segs[j].head) != Start(segs, j)
  {
    hide StrStr;
    StartsIncrease(segs, i, j);
    FieldChar(segs, text, i, q);
    NulStopsSearch(text, segs[j].head, FieldStart(segs, i) + q);
  }

  lemma OccurrenceHidesLabel(segs: seq<Segment>, text: string, j: nat, i: nat, q: nat)
    requires i < j < |segs| && SegmentAt(text, segs, i) && segs[j].head != ""
    requires MatchAt(segs[i].field, segs[j].head, q)
    ensures StrStr(text, segs[j].head) != Start(segs, j)
  {
    hide StrStr;
    StartsIncrease(segs, i, j);
    MatchInField(segs, text, i, segs[j].head, q);
    EarlierMatchWins(text, segs[j].head, FieldStart(segs, i) + q, Start(segs, j));
  }

  /** Conversely, a NUL or an occurrence of label j in an earlier field makes the search miss segment j. */
  lemma SearchMissesLabel(segs: seq<Segment>, text: string, j: nat, i: nat)
    requires Labelled(segs) && i < j < |segs| && text == Join(segs, |segs|)
    requires !NulFree(segs[i].field) || Contains(segs[i].field, segs[j].head)
    ensures StrStr(text, segs[j].head) != Start(segs, j)
  {
    hide Join, StrStr, MatchAt, Tag, SegmentAt;
    JoinIsLaidOut(segs, |segs|);
    assert IsLabel(segs[j].head);
    if !NulFree(segs[i].field) {
      var q :| 0 <= q < |segs[i].field| && segs[i].field[q] == NUL;
      NulHidesLabel(segs, text, j, i, q);
    } else {
      var q := MatchInside(segs[i].field, segs[j].head);
      OccurrenceHidesLabel(segs, text, j, i, q);
    }
  }

  lemma MatchInside(text: string, pat: string) returns (q: nat)
    requires Contains(text, pat)
    ensures MatchAt(text, pat, q)
  {
    q :| MatchAt(text, pat, q);
  }

  lemma MatchTail(text: string, head: string, p: nat)
    requires MatchAt(text, "\n" + head, p)
    ensures MatchAt(text, head, p + 1)
  {
    Within(text, p, p + 1 + |head|, p + 1, p + 1 + |head|);
  }

  lemma PrependNewline(text: string, head: string, a: nat)
    requires 0 < a && MatchAt(text, head, a) && text[a - 1] == '\n'
    ensures MatchAt(text, "\n" + head, a - 1)
  {
    assert text[a - 1..a + |head|] == [text[a - 1]] + text[a..a + |head|];
  }

  lemma NoEarlierNewline(segs: seq<Segment>, text: string, j: nat, p: nat)
    requires Labelled(segs) && j < |segs| && text == Join(segs, |segs|) && Lacks(segs, j) && p + 1 < Start(segs, j)
    ensures !MatchAt(CStr(text), "\n" + segs[j].head, p)
  {
    hide Join, Labelled, Lacks, NulFree, Contains;
    if MatchAt(CStr(text), "\n" + segs[j].head, p) {
      MatchTail(CStr(text), segs[j].head, p);
      MatchInPrefix(text, segs[j].head, p + 1, |CStr(text)|);
      assert CStr(text) == text[..|CStr(text)|];
      NoEarlierMatch(segs, text, j, p + 1);
    }
  }

  lemma NewlineAndLabel(segs: seq<Segment>, text: string, j: nat)
    requires 0 < j < |segs| && SegmentAt(text, segs, j) && FieldStart(segs, j) <= |CStr(text)|
    ensures 0 < Start(segs, j) && MatchAt(CStr(text), "\n" + segs[j].head, Start(segs, j) - 1)
  {
    hide CStr;
    var head, a := segs[j].head, Start(segs, j);
    assert MatchAt(text, head, a) && text[a - 1] == '\n';
    hide SegmentAt;
    PrependNewline(text, head, a);
    MatchInPrefix(text, "\n" + head, a - 1, |CStr(text)|);
    assert CStr(text) == text[..|CStr(text)|];
  }

  /** The search for "\nlabel" ends the field before, when the search for the label itself is right. */
  lemma SearchFindsNewline(segs: seq<Segment>, text: string, j: nat)
    requires Labelled(segs) && 0 < j < |segs| && text == Join(segs, |segs|) && Lacks(segs, j)
    ensures StrStr(text, "\n" + segs[j].head) == Start(segs, j) - 1
  {
    hide Join, IsLabel, CStr, NulFree, StrStr, Labelled, Tag, MatchAt;
    LabelInCStr(segs, text, j);
    NewlineAndLabel(segs, text, j);
    var a := Start(segs, j);
    forall p | 0 <= p < a - 1
      ensures !MatchAt(CStr(text), "\n" + segs[j].head, p)
    {
      NoEarlierNewline(segs, text, j, p);
    }
    StrStrIs(text, "\n" + segs[j].head, a - 1);
  }

  // ---------- the record of a policy ----------

  const SIGNATURE_LEN := 128
  const PUBLIC_KEY_LEN := 64

  const LABELS: seq<string> := [
    "policy id:", "policy object:", "policy cost:", "policy id signature:",
    "policy id signature public key:", "policy id signature sign. algorithm:", "hash function:"]

  /** What store is given; the object is raw bytes with a size, the others are C strings. */
  datatype Record = Record(object_: string, cost: string, signature: string, publicKey: string, algorithm: string, hashFunction: string)

  /** store reads a fixed number of bytes from the two hex strings, wherever they end. */
  ghost predicate Readable(r: Record) {
    SIGNATURE_LEN <= |r.signature| && PUBLIC_KEY_LEN <= |r.publicKey|
  }

  /** What reaches the file: C strings up to their NUL, fixed lengths for signature and key. */
  function Segments(id: string, r: Record): (segs: seq<Segment>)
    requires Readable(r)
    ensures |segs| == |LABELS|
  {
    [Segment(LABELS[0], id), Segment(LABELS[1], r.object_), Segment(LABELS[2], CStr(r.cost)),
     Segment(LABELS[3], r.signature[..SIGNATURE_LEN]), Segment(LABELS[4], r.publicKey[..PUBLIC_KEY_LEN]),
     Segment(LABELS[5], CStr(r.algorithm)), Segment(LABELS[6], CStr(r.hashFunction))]
  }

  /** The content of a policy's file. */
  function FileText(id: string, r: Record): string
    requires Readable(r)
  {
    Join(Segments(id, r), |LABELS|)
  }

  /** The file in full: seven labels, each followed by its own field. */
  lemma FileTextIs(id: string, r: Record)
    requires Readable(r)
    ensures |r.signature| >= 128 && |r.publicKey| >= 64
    ensures FileText(id, r) ==
            "policy id:" + id + ("\n" + "policy object:") + r.object_ + ("\n" + "policy cost:") + CStr(r.cost)
            + ("\n" + "policy id signature:") + r.signature[..128] + ("\n" + "policy id signature public key:") + r.publicKey[..64]
            + ("\n" + "policy id signature sign. algorithm:") + CStr(r.algorithm) + ("\n" + "hash function:") + CStr(r.hashFunction)
  {
    hide Join, CStr;
    var segs := Segments(id, r);
    FirstSegment(segs);
    JoinOneMore(segs, 1);
    JoinOneMore(segs, 2);
    JoinOneMore(segs, 3);
    JoinOneMore(segs, 4);
    JoinOneMore(segs, 5);
    JoinOneMore(segs, 6);
  }

  lemma AppendSegment(text: string, head: string, field: string)
    ensures text + ("\n" + head) + field == text + ("\n" + (head + field))
  {
    assert text + ("\n" + head) + field == text + (("\n" + head) + field);
  }

  lemma JoinOneMore(segs: seq<Segment>, n: nat)
    requires 0 < n < |segs|
    ensures Join(segs, n + 1) == Join(segs, n) + ("\n" + segs[n].head) + segs[n].field
  {
    AppendSegment(Join(segs, n), segs[n].head, segs[n].field);
  }

  lemma FirstSegment(segs: seq<Segment>)
    requires 0 < |segs|
    ensures Join(segs, 1) == segs[0].head + segs[0].field
  {
  }

  datatype Copied = Undefined | Text(text: string)

  /** memcpy from after the first match of one label to the first match of the next line's label. */
  function Between(buf: string, j: nat): Copied
    requires j + 1 < |LABELS|
  {
    var s, e := StrStr(buf, LABELS[j]), StrStr(buf, "\n" + LABELS[j + 1]);
    if s == -1 || e < s + |LABELS[j]| then Undefined else Text(buf[s + |LABELS[j]|..e])
  }

  /** memcpy from after the first match of the last label to the end of the buffer. */
  function ToEnd(buf: string): Copied {
    var s := StrStr(buf, LABELS[6]);
    if s == -1 then Undefined else Text(buf[s + |LABELS[6]|..])
  }

  /** The fields as acquire copies them out of the file's text; undefined when a search finds nothing or ends too early. */
  function Acquired(buf: string, j: nat): Copied
    requires 0 < j < |LABELS|
  {
    if j == 6 then ToEnd(buf) else Between(buf, j)
  }

  ghost predicate ReadsBack(buf: string, segs: seq<Segment>)
    requires |segs| == |LABELS|
  {
    forall j :: 0 < j < |LABELS| ==> Acquired(buf, j) == Text(segs[j].field)
  }

  /** No field before a later label's line has a NUL in it or contains that label. */
  ghost predicate Clean(segs: seq<Segment>)
    requires |segs| == |LABELS|
  {
    forall j :: 0 < j < |LABELS| ==> Lacks(segs, j)
  }

  lemma FirstLabels()
    ensures IsLabel(LABELS[0]) && IsLabel(LABELS[1]) && IsLabel(LABELS[2]) && IsLabel(LABELS[3])
    ensures Tag(LABELS[0]) == 'i' && Tag(LABELS[1]) == 'c' && Tag(LABELS[2]) == 's' && Tag(LABELS[3]) == 'r'
  {
  }

  lemma LastLabels()
    ensures IsLabel(LABELS[4]) && IsLabel(LABELS[5]) && IsLabel(LABELS[6])
    ensures Tag(LABELS[4]) == 'e' && Tag(LABELS[5]) == 'h' && Tag(LABELS[6]) == 'o'
  {
  }

  lemma LabelsAreLabels(id: string, r: Record)
    requires Readable(r)
    ensures Labelled(Segments(id, r))
  {
    FirstLabels();
    LastLabels();
    hide IsLabel, Tag;
  }

  // ---------- the round trip ----------

  /** The segments of a record, whatever its fields hold. */
  ghost predicate IsRecord(segs: seq<Segment>) {
    |segs| == |LABELS| == 7 && Labelled(segs) && forall j :: 0 <= j < 7 ==> segs[j].head == LABELS[j]
  }

  lemma SegmentsAreRecord(id: string, r: Record)
    requires Readable(r)
    ensures IsRecord(Segments(id, r))
  {
    hide Labelled;
    LabelsAreLabels(id, r);
  }

  lemma FieldInText(segs: seq<Segment>, text: string, j: nat)
    requires j < |segs| && SegmentAt(text, segs, j)
    ensures FieldEnd(segs, j) <= |text| && text[FieldStart(segs, j)..FieldEnd(segs, j)] == segs[j].field
    ensures j + 1 < |segs| ==> Start(segs, j + 1) == FieldEnd(segs, j) + 1
  {
  }

  /** Label j's search and the search for the line after it, taken together. */
  lemma AcquiredIsWindow(segs: seq<Segment>, text: string, j: nat)
    requires IsRecord(segs) && text == Join(segs, 7) && 0 < j < 7 && (j < 6 ==> Lacks(segs, j + 1))
    ensures FieldEnd(segs, j) <= |text|
    ensures Acquired(text, j) ==
            (var s := StrStr(text, segs[j].head);
             if s == -1 || FieldEnd(segs, j) < s + |segs[j].head| then Undefined
             else Text(text[s + |segs[j].head|..FieldEnd(segs, j)]))
  {
    hide Join, StrStr, Labelled, Lacks;
    JoinIsLaidOut(segs, 7);
    if j < 6 {
      SearchFindsNewline(segs, text, j + 1);
      assert Start(segs, j + 1) == FieldEnd(segs, j) + 1;
    }
    assert SegmentAt(text, segs, j);
  }

  /** A clean record is read back field by field. */
  lemma CleanReadsBack(segs: seq<Segment>, text: string, j: nat)
    requires IsRecord(segs) && text == Join(segs, 7) && Clean(segs) && 0 < j < 7
    ensures Acquired(text, j) == Text(segs[j].field)
  {
    hide Join, StrStr, Labelled, Lacks, Acquired;
    AcquiredIsWindow(segs, text, j);
    SearchFindsLabel(segs, text, j);
    JoinIsLaidOut(segs, 7);
    FieldInText(segs, text, j);
  }

  lemma RightOnlyIfLacks(segs: seq<Segment>, text: string, j: nat)
    requires Labelled(segs) && j < |segs| && text == Join(segs, |segs|) && StrStr(text, segs[j].head) == Start(segs, j)
    ensures Lacks(segs, j)
  {
    hide Join, StrStr, Labelled, NulFree, Contains;
    forall i | 0 <= i < j
      ensures NulFree(segs[i].field) && !Contains(segs[i].field, segs[j].head)
    {
      if !NulFree(segs[i].field) || Contains(segs[i].field, segs[j].head) {
        SearchMissesLabel(segs, text, j, i);
      }
    }
  }

  /** If every later label reads back right, label j reads back right only when no earlier field hides it. */
  lemma {:induction false} ReadsBackOnlyIfClean(segs: seq<Segment>, text: string, j: nat)
    requires IsRecord(segs) && text == Join(segs, 7) && ReadsBack(text, segs) && 0 < j < 7
    ensures forall i: nat :: j <= i < 7 ==> Lacks(segs, i)
    decreases 7 - j
  {
    hide Join, StrStr, Labelled, Lacks, Acquired;
    if j < 6 {
      ReadsBackOnlyIfClean(segs, text, j + 1);
    }
    AcquiredIsWindow(segs, text, j);
    assert Acquired(text, j) == Text(segs[j].field);
    RightOnlyIfLacks(segs, text, j);
  }

  /** A stored record reads back field for field exactly when no field before a label's line has a NUL or that label in it. */
  lemma RoundTripIffClean(id: string, r: Record)
    requires Readable(r)
    ensures ReadsBack(FileText(id, r), Segments(id, r)) <==> Clean(Segments(id, r))
  {
    var segs, text := Segments(id, r), FileText(id, r);
    SegmentsAreRecord(id, r);
    hide Join, Labelled, Acquired, Lacks, Segments, ReadsBack, Clean;
    RecordReadsBackIffClean(segs, text);
  }

  lemma RecordReadsBackIffClean(segs: seq<Segment>, text: string)
    requires IsRecord(segs) && text == Join(segs, 7)
    ensures ReadsBack(text, segs) <==> Clean(segs)
  {
    hide Join, Labelled, Acquired, Lacks;
    if Clean(segs) {
      forall j | 0 < j < 7
        ensures Acquired(text, j) == Text(segs[j].field)
      {
        CleanReadsBack(segs, text, j);
      }
    }
    if ReadsBack(text, segs) {
      ReadsBackOnlyIfClean(segs, text, 1);
    }
  }

  /** An object that is the text of the next label is such a record: not all fields of it come back. */
  lemma LabelAsObjectIsMisread(id: string, r: Record)
    requires Readable(r) && r.object_ == "policy cost:"
    ensures !ReadsBack(FileText(id, r), Segments(id, r))
  {
    var segs := Segments(id, r);
    assert segs[1].field == segs[2].head == "policy cost:";
    hide Segments;
    assert MatchAt(segs[1].field, segs[2].head, 0);
    assert !Lacks(segs, 2);
    RoundTripIffClean(id, r);
  }

  // ---------- the length of the stored object ----------

  /** The distance from after the first "policy object:" to the end of the file. */
  function PolObjLen(buf: string): int {
    |buf| - (StrStr(buf, LABELS[1]) + |LABELS[1]|)
  }

  /** Whatever the fields hold, the reported length is that of the object and all behind it, because an id has no NUL and no colon. */
  lemma PolObjLenIs(id: string, r: Record)
    requires Readable(r) && NulFree(id) && ':' !in id
    ensures PolObjLen(FileText(id, r)) ==
            |r.object_| + |"\npolicy cost:"| + |CStr(r.cost)| + |"\npolicy id signature:"| + 128
            + |"\npolicy id signature public key:"| + 64
            + |"\npolicy id signature sign. algorithm:"| + |CStr(r.algorithm)| + |"\nhash function:"| + |CStr(r.hashFunction)|
  {
    var segs, text := Segments(id, r), FileText(id, r);
    FileTextIs(id, r);
    SegmentsAreRecord(id, r);
    assert segs[0].field == id && text == Join(segs, 7) && segs[0].head == "policy id:";
    FirstSegment(segs);
    hide Join, Labelled, StrStr, Segments, CStr;
    if Contains(id, LABELS[1]) {
      var q := MatchInside(id, LABELS[1]);
      CharOfMatch(id, LABELS[1], q, 13);
    }
    SearchFindsLabel(segs, text, 1);
  }
}
