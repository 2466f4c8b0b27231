/** C strings: character buffers whose text ends at the first NUL, and the library calls that walk them. */
module CStrings {

  const NUL: char := '\0'

  ghost predicate NulFree(s: string) {
    forall i :: 0 <= i < |s| ==> s[i] != NUL
  }

  /** The text a C function sees when it is handed a pointer to the start of buffer b. */
  function CStr(b: string): (s: string)
    ensures s <= b && NulFree(s)
    ensures |s| < |b| ==> b[|s|] == NUL
  {
    if b == [] || b[0] == NUL then [] else [b[0]] + CStr(b[1..])
  }

  lemma {:induction false} CStrOfTerminated(s: string, rest: string)
    requires NulFree(s)
    requires rest != [] ==> rest[0] == NUL
    ensures CStr(s + rest) == s
  {
    if s != [] {
      CStrOfTerminated(s[1..], rest);
      assert (s + rest)[1..] == s[1..] + rest;
    }
  }

  lemma NulFreeConcat(u: string, v: string)
    requires NulFree(u) && NulFree(v)
    ensures NulFree(u + v)
  {
  }

  /** strncmp(a, &b[off], n) == 0, where a is the text of a C string; reading past the buffer gives NUL. */
  predicate StrNCmpEq(a: string, b: string, off: nat, n: nat)
    decreases n
  {
    n == 0 ||
    (var ca := if a == [] then NUL else a[0];
     var cb := if off < |b| then b[off] else NUL;
     ca == cb && (ca == NUL || StrNCmpEq(a[1..], b, off + 1, n - 1)))
  }

  /** On a NUL-free window strncmp tests whether the window is a prefix of a, and not whether they are equal. */
  lemma {:induction false} StrNCmpIsPrefixTest(a: string, b: string, off: nat, n: nat)
    requires off + n <= |b| && NulFree(b[off..off + n])
    ensures StrNCmpEq(a, b, off, n) <==> b[off..off + n] <= a
    decreases n
  {
    if n > 0 {
      assert b[off..off + n][0] == b[off];
      assert b[off..off + n] == [b[off]] + b[off + 1..off + n];
      assert b[off + 1..off + n] == b[off..off + n][1..];
      if a != [] {
        StrNCmpIsPrefixTest(a[1..], b, off + 1, n - 1);
        assert a == [a[0]] + a[1..];
        if b[off..off + n] <= a {
          assert b[off + 1..off + n] == b[off..off + n][1..] <= a[1..];
        }
      }
    }
  }

  /** On a window that holds a NUL it compares the two texts in full. */
  lemma {:induction false} StrNCmpStopsAtNul(a: string, b: string, off: nat, n: nat)
    requires off + n <= |b| && !NulFree(b[off..off + n])
    ensures StrNCmpEq(a, b, off, n) <==> CStr(b[off..off + n]) == CStr(a)
    decreases n
  {
    var w := b[off..off + n];
    assert w[0] == b[off] && w[1..] == b[off + 1..off + n];
    if w[0] != NUL {
      assert !NulFree(w[1..]) by {
        var i :| 0 <= i < |w| && w[i] == NUL;
        assert w[1..][i - 1] == NUL;
      }
      if a != [] && a[0] == w[0] {
        StrNCmpStopsAtNul(a[1..], b, off + 1, n - 1);
      }
    }
  }

  ghost predicate MatchAt(text: string, pat: string, p: int) {
    0 <= p && p + |pat| <= |text| && text[p..p + |pat|] == pat
  }

  ghost predicate Contains(text: string, pat: string) {
    exists p :: MatchAt(text, pat, p)
  }

  /** A window over a concatenation splits into two windows. */
  lemma WindowSplit(cs: string, a: nat, b: nat, u: string, v: string)
    requires a <= b <= |cs| && cs[a..b] == u + v
    ensures a + |u| <= b && cs[a..a + |u|] == u && cs[a + |u|..b] == v
    ensures forall i :: 0 <= i < |u| ==> cs[a + i] == u[i]
  {
    var w := cs[a..b];
    forall i | 0 <= i < |u|
      ensures cs[a + i] == u[i]
    {
      assert w[i] == cs[a + i];
    }
    forall i | 0 <= i < |v|
      ensures cs[a + |u| + i] == v[i]
    {
      assert w[|u| + i] == cs[a + |u| + i];
    }
  }
}
