/** The index of stored policies: 64-digit ids, each followed by a bar, found again by substring search. */
module PapIndex {
  import opened CStrings
  import opened Machine
  import opened PapRecord

  const ID_LEN := 64
  const ENTRY_LEN := 65
  const BAR: char := '|'

  predicate IsHexDigit(c: char) {
    '0' <= c <= '9' || 'a' <= c <= 'f' || 'A' <= c <= 'F'
  }

  /** The text form of a 32-byte policy id. */
  ghost predicate IsId(id: string) {
    |id| == ID_LEN && forall i :: 0 <= i < ID_LEN ==> IsHexDigit(id[i])
  }

  ghost predicate AllIds(ids: seq<string>) {
    forall i :: 0 <= i < |ids| ==> IsId(ids[i])
  }

  function IndexText(ids: seq<string>): string {
    if ids == [] then "" else IndexText(ids[..|ids| - 1]) + (ids[|ids| - 1] + [BAR])
  }

  lemma {:induction false} IndexLength(ids: seq<string>)
    requires AllIds(ids)
    ensures |IndexText(ids)| == ENTRY_LEN * |ids|
  {
    if ids != [] {
      IndexLength(ids[..|ids| - 1]);
    }
  }

  /** Every character of the index is a digit of an id, or the bar that closes it. */
  lemma {:induction false} IndexChar(ids: seq<string>, i: nat, k: nat)
    requires AllIds(ids) && i < |ids| && k < ENTRY_LEN
    ensures ENTRY_LEN * i + k < |IndexText(ids)|
    ensures IndexText(ids)[ENTRY_LEN * i + k] == if k < ID_LEN then ids[i][k] else BAR
  {
    var before := ids[..|ids| - 1];
    IndexLength(ids);
    IndexLength(before);
    if i < |before| {
      IndexChar(before, i, k);
    }
  }

  lemma IndexIsNulFree(ids: seq<string>)
    requires AllIds(ids)
    ensures NulFree(IndexText(ids)) && CStr(IndexText(ids)) == IndexText(ids)
  {
    hide IndexText;
    var text := IndexText(ids);
    IndexLength(ids);
    forall p | 0 <= p < |text|
      ensures text[p] != NUL
    {
      IndexChar(ids, p / ENTRY_LEN, p % ENTRY_LEN);
      assert IsId(ids[p / ENTRY_LEN]);
    }
    CStrReaches(text, |text|);
  }

  /** An id can only match where an entry starts, because every window of 64 other characters holds a bar. */
  lemma MatchIsAligned(ids: seq<string>, id: string, p: nat)
    requires AllIds(ids) && IsId(id) && MatchAt(IndexText(ids), id, p)
    ensures p % ENTRY_LEN == 0 && p / ENTRY_LEN < |ids| && ids[p / ENTRY_LEN] == id
  {
    hide IndexText;
    IndexLength(ids);
    var text, i, k := IndexText(ids), p / ENTRY_LEN, p % ENTRY_LEN;
    assert i < |ids|;
    if k > 0 {
      IndexChar(ids, i, ID_LEN);
      CharOfMatch(text, id, p, ID_LEN - k);
    }
    forall j | 0 <= j < ID_LEN
      ensures ids[i][j] == id[j]
    {
      IndexChar(ids, i, j);
      CharOfMatch(text, id, p, j);
    }
    assert IsId(ids[i]);
  }

  lemma EntryMatches(ids: seq<string>, i: nat)
    requires AllIds(ids) && i < |ids|
    ensures MatchAt(IndexText(ids), ids[i], ENTRY_LEN * i)
  {
    hide IndexText;
    IndexLength(ids);
    var text, p := IndexText(ids), ENTRY_LEN * i;
    assert IsId(ids[i]);
    forall j | 0 <= j < ID_LEN
      ensures text[p..p + ID_LEN][j] == ids[i][j]
    {
      IndexChar(ids, i, j);
    }
  }

  /** The position of the first occurrence, or the length. */
  function FirstIndex(ids: seq<string>, id: string): (k: nat)
    ensures k <= |ids|
    ensures k < |ids| ==> ids[k] == id
    ensures forall i :: 0 <= i < k ==> ids[i] != id
  {
    if ids == [] then 0 else if ids[0] == id then 0 else 1 + FirstIndex(ids[1..], id)
  }

  /** The substring search finds exactly the first entry for the id, and nothing when there is none. */
  lemma SearchFindsEntry(ids: seq<string>, id: string)
    requires AllIds(ids) && IsId(id)
    ensures id in ids ==> StrStr(IndexText(ids), id) == ENTRY_LEN * FirstIndex(ids, id)
    ensures id !in ids ==> StrStr(IndexText(ids), id) == -1
  {
    hide IndexText, StrStr, CStr, IsId;
    var text, k := IndexText(ids), FirstIndex(ids, id);
    IndexIsNulFree(ids);
    forall p | 0 <= p && MatchAt(text, id, p)
      ensures id in ids && ENTRY_LEN * k <= p
    {
      MatchIsAligned(ids, id, p);
    }
    if id in ids {
      EntryMatches(ids, k);
      StrStrIs(text, id, ENTRY_LEN * k);
    }
  }

  lemma {:induction false} IndexOfConcat(a: seq<string>, b: seq<string>)
    ensures IndexText(a + b) == IndexText(a) + IndexText(b)
  {
    if b == [] {
      assert a + b == a;
    } else {
      var b' := b[..|b| - 1];
      assert (a + b)[..|a + b| - 1] == a + b';
      IndexOfConcat(a, b');
    }
  }

  /** Cutting one entry's 65 characters out of the index removes exactly that entry. */
  lemma SpliceRemovesEntry(ids: seq<string>, k: nat)
    requires AllIds(ids) && k < |ids|
    ensures ENTRY_LEN * k + ENTRY_LEN <= |IndexText(ids)|
    ensures IndexText(ids)[..ENTRY_LEN * k] + IndexText(ids)[ENTRY_LEN * k + ENTRY_LEN..] == IndexText(Without(ids, k))
  {
    hide IndexText, IsId;
    var a, b, c := ids[..k], [ids[k]], ids[k + 1..];
    assert ids == a + (b + c);
    IndexOfConcat(a, b + c);
    IndexOfConcat(b, c);
    IndexOfConcat(a, c);
    IndexLength(a);
    IndexLength(b);
    assert Without(ids, k) == a + c;
    hide AllIds;
    CutMiddle(IndexText(a), IndexText(b), IndexText(c));
  }

  lemma CutMiddle(a: string, b: string, c: string)
    ensures (a + (b + c))[..|a|] + (a + (b + c))[|a| + |b|..] == a + c
  {
    assert (a + (b + c))[|a| + |b|..] == c;
  }

  // ---------- strtok ----------

  /** The first position at or after i that holds a bar, or the end of the text. */
  function NextBar(s: string, i: nat): (k: nat)
    requires i <= |s|
    ensures i <= k <= |s| && (k < |s| ==> s[k] == BAR) && forall j :: i <= j < k ==> s[j] != BAR
    decreases |s| - i
  {
    if i == |s| || s[i] == BAR then i else NextBar(s, i + 1)
  }

  /** The tokens strtok(s, "|") yields from position i on: maximal runs without a bar, empty runs skipped. */
  function Tokens(s: string, i: nat): seq<string>
    requires i <= |s|
    decreases |s| - i
  {
    if i == |s| then []
    else if s[i] == BAR then Tokens(s, i + 1)
    else var k := NextBar(s, i); [s[i..k]] + Tokens(s, k)
  }

  /** Splitting the index at its bars gives back the ids, in order. */
  lemma {:induction false} TokensOfIndex(ids: seq<string>, i: nat)
    requires AllIds(ids) && i <= |ids|
    ensures ENTRY_LEN * i <= |IndexText(ids)| && Tokens(IndexText(ids), ENTRY_LEN * i) == ids[i..]
    decreases |ids| - i
  {
    hide IndexText;
    IndexLength(ids);
    if i < |ids| {
      var text, p := IndexText(ids), ENTRY_LEN * i;
      EntryMatches(ids, i);
      assert IsId(ids[i]);
      forall j | p <= j < p + ID_LEN
        ensures text[j] != BAR
      {
        CharOfMatch(text, ids[i], p, j - p);
      }
      IndexChar(ids, i, ID_LEN);
      assert NextBar(text, p) == p + ID_LEN;
      TokensOfIndex(ids, i + 1);
      assert Tokens(text, p + ID_LEN) == Tokens(text, p + ENTRY_LEN);
      assert ids[i..] == [ids[i]] + ids[i + 1..];
    }
  }
}
