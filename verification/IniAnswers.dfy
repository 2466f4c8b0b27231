/** Which line of a file a lookup answers from. */
module IniAnswers {
  import opened CStrings
  import opened IniConfig
  import opened IniLines
  import opened IniRoundTrip

  // ---------- lines of the text and entries ----------

  /** What one pass over the text gives, whatever the token array held. */
  ghost predicate IsPass(text: string, tr: seq<Lexer>) {
    && IsTrace(text, tr) && Fresh(tr[0]) && tr[0].tokenIndex == 0 && tr[0].groupIndex == 0
    && forall q {:trigger tr[q]} :: 0 <= q <= |text| ==> (tr[q].newLine <==> IsSeen(text, q))
  }

  /** A line starts at p, and the blank lines right before it come in pairs. */
  ghost predicate IsSeen(text: string, p: nat) {
    LineStart(text, p) && BlankLines(text, p) % 2 == 0
  }

  lemma PassOf(text: string, old_: seq<Token>) returns (tr: seq<Lexer>)
    requires |text| <= 2 * |old_|
    ensures IsPass(text, tr)
  {
    tr := TraceOf(old_, text);
    forall q {:trigger tr[q]} | 0 <= q <= |text|
      ensures tr[q].newLine <==> IsSeen(text, q)
    {
      LineIsSeenIff(old_, text, q);
      TraceIsScan(old_, text, tr, q);
    }
  }

  lemma {:induction false} TraceIsScan(old_: seq<Token>, text: string, tr: seq<Lexer>, q: nat)
    requires q <= |text| <= 2 * |old_| && IsTrace(text, tr) && tr[0] == Scan(old_, text, 0)
    ensures tr[q] == Scan(old_, text, q)
  {
    if q > 0 {
      TraceIsScan(old_, text, tr, q - 1);
      assert StepAt(text, tr, q - 1);
    }
  }

  /** Inside a line that is seen no other line is seen: behind a blank line the next one is taken for its rest. */
  lemma InsideIsUnseen(text: string, tr: seq<Lexer>, b: nat, l: Line, p: nat)
    requires IsPass(text, tr) && HasBody(text, b, l) && LineOk(l) && tr[b].newLine && b < p <= b + |Body(l)|
    ensures !tr[p].newLine
  {
    BodyAt(text, b, l);
    hide Body, LineOk, HasBody, BlankLines;
    if p == b + 1 {
      assert StepAt(text, tr, b);
    }
  }

  lemma {:induction false} SeenIsBoundary(text: string, tr: seq<Lexer>, lines: seq<Line>, n: nat, p: nat) returns (m: nat)
    requires IsPass(text, tr) && n <= |lines| && RenderTo(lines, n) <= text
    requires (forall i :: 0 <= i < |lines| ==> LineOk(lines[i])) && p <= |RenderTo(lines, n)| && tr[p].newLine
    ensures m <= n && p == |RenderTo(lines, m)|
  {
    hide Body, LineOk, RenderLine;
    if n == 0 || p == |RenderTo(lines, n)| {
      m := n;
    } else {
      var b, l := |RenderTo(lines, n - 1)|, lines[n - 1];
      NextLine(lines, n - 1);
      PrefixTrans(RenderTo(lines, n - 1), RenderTo(lines, n), text);
      if p > b {
        HasLineInPrefix(RenderTo(lines, n), text, b, l);
        var _, _ := LinesAreScanned(text, tr, lines, n - 1);
        InsideIsUnseen(text, tr, b, l, p);
      }
      m := SeenIsBoundary(text, tr, lines, n - 1, p);
    }
  }

  lemma {:induction false} EntryOfLine(lines: seq<Line>, n: nat, m: nat) returns (k: nat)
    requires m < n <= |lines| && !lines[m].Comment?
    ensures k < |EntriesTo(lines, n)| && EntriesTo(lines, n)[k] == Entry(|RenderTo(lines, m)|, lines[m], true)
  {
    hide RenderTo;
    if m == n - 1 {
      k := |EntriesTo(lines, n - 1)|;
    } else {
      k := EntryOfLine(lines, n - 1, m);
    }
  }

  /** Entries come in the order of their lines. */
  ghost predicate InOrder(es: seq<Entry>, end: nat) {
    && (forall i, j :: 0 <= i < j < |es| ==> es[i].pos < es[j].pos)
    && (forall i :: 0 <= i < |es| ==> es[i].pos < end)
  }

  lemma {:induction false} LinesInOrder(lines: seq<Line>, n: nat)
    requires n <= |lines|
    ensures InOrder(EntriesTo(lines, n), |RenderTo(lines, n)|)
  {
    hide Body;
    if n > 0 {
      LinesInOrder(lines, n - 1);
    }
  }

  lemma EntriesInOrder(doc: Document)
    ensures InOrder(Entries(doc), |Text(doc)|)
  {
    hide Body;
    LinesInOrder(doc.lines, |doc.lines|);
  }

  lemma {:induction false} EntryIsBoundary(lines: seq<Line>, n: nat, k: nat) returns (m: nat)
    requires n <= |lines| && k < |EntriesTo(lines, n)|
    ensures m < n && EntriesTo(lines, n)[k].pos == |RenderTo(lines, m)|
  {
    hide RenderTo;
    if k == |EntriesTo(lines, n - 1)| {
      m := n - 1;
    } else {
      m := EntryIsBoundary(lines, n - 1, k);
    }
  }

  lemma {:induction false} RenderGrows(lines: seq<Line>, m: nat, n: nat)
    requires m <= n <= |lines|
    ensures RenderTo(lines, m) <= RenderTo(lines, n)
  {
    hide RenderLine;
    if m < n {
      RenderGrows(lines, m, n - 1);
    }
  }

  lemma LinesStandFirst(doc: Document, m: nat)
    requires m <= |doc.lines|
    ensures RenderTo(doc.lines, m) <= Text(doc)
  {
    hide Body, RenderTo;
    RenderGrows(doc.lines, m, |doc.lines|);
  }

  /** Entries start where the tokenizer sees a line start. */
  lemma EntryIsSeen(doc: Document, tr: seq<Lexer>, k: nat)
    requires DocOk(doc) && IsPass(Text(doc), tr) && k < |Entries(doc)|
    ensures IsSeen(Text(doc), Entries(doc)[k].pos)
  {
    var m := |doc.lines|;
    if k < |EntriesTo(doc.lines, |doc.lines|)| {
      m := EntryIsBoundary(doc.lines, |doc.lines|, k);
    }
    LinesStandFirst(doc, m);
    hide Body, Text, IsSeen, RenderTo, EntriesTo;
    var _, _ := LinesAreScanned(Text(doc), tr, doc.lines, m);
  }

  /** Line l of the document stands at p in its text: ended by a line feed, or by the end of the file. */
  ghost predicate IsLineAt(doc: Document, p: nat, l: Line) {
    && LineOk(l)
    && (HasLine(Text(doc), p, l) || (HasBody(Text(doc), p, l) && p + |Body(l)| == |Text(doc)|))
  }

  ghost predicate HasEntry(doc: Document, p: nat, l: Line) {
    exists k :: 0 <= k < |Entries(doc)| && Entries(doc)[k].pos == p && Entries(doc)[k].line == l
  }

  /** Where it sees a line start, there is a line of the document; and an entry, if a line feed ends it or it is an option. */
  lemma SeenIsLine(doc: Document, tr: seq<Lexer>, p: nat) returns (l: Line)
    requires DocOk(doc) && IsPass(Text(doc), tr) && p < |Text(doc)| && IsSeen(Text(doc), p)
    ensures IsLineAt(doc, p, l)
    ensures !l.Comment? && (HasLine(Text(doc), p, l) || l.Setting?) ==> HasEntry(doc, p, l)
  {
    var text, lines, n := Text(doc), doc.lines, |doc.lines|;
    LinesStandFirst(doc, n);
    LinesOk(doc);
    assert tr[p].newLine;
    if p < |RenderTo(lines, n)| {
      var m := SeenIsBoundary(text, tr, lines, n, p);
      l := lines[m];
      LineInDoc(doc, m);
    } else {
      assert doc.last.Tail?;
      l := doc.last.line;
      TailStands(doc);
      hide Body, LineOk, RenderTo, BlankLines, Text, HasBody;
      if p > |RenderTo(lines, n)| {
        var _, _ := LinesAreScanned(text, tr, lines, n);
        InsideIsUnseen(text, tr, |RenderTo(lines, n)|, l, p);
      }
      TailEntry(doc);
    }
  }

  lemma LineInDoc(doc: Document, m: nat)
    requires m < |doc.lines|
    ensures HasLine(Text(doc), |RenderTo(doc.lines, m)|, doc.lines[m])
    ensures !doc.lines[m].Comment? ==> HasEntry(doc, |RenderTo(doc.lines, m)|, doc.lines[m])
  {
    hide *;
    var text, upTo := Text(doc), RenderTo(doc.lines, m + 1);
    NextLine(doc.lines, m);
    LinesStandFirst(doc, m + 1);
    HasLineInPrefix(upTo, text, |RenderTo(doc.lines, m)|, doc.lines[m]);
    LineHasEntry(doc, m);
  }

  lemma LineHasEntry(doc: Document, m: nat)
    requires m < |doc.lines|
    ensures !doc.lines[m].Comment? ==> HasEntry(doc, |RenderTo(doc.lines, m)|, doc.lines[m])
  {
    hide Body, RenderTo, EntriesTo;
    if !doc.lines[m].Comment? {
      var k := EntryOfLine(doc.lines, |doc.lines|, m);
      assert Entries(doc)[k] == EntriesTo(doc.lines, |doc.lines|)[k];
    }
  }

  lemma TailEntry(doc: Document)
    requires doc.last.Tail?
    ensures doc.last.line.Setting? ==> HasEntry(doc, |RenderTo(doc.lines, |doc.lines|)|, doc.last.line)
    ensures DocOk(doc) ==> !HasLine(Text(doc), |RenderTo(doc.lines, |doc.lines|)|, doc.last.line)
  {
    TailStands(doc);
    if doc.last.line.Setting? {
      var k := |EntriesTo(doc.lines, |doc.lines|)|;
      assert Entries(doc)[k].line == doc.last.line;
    }
  }

  // ---------- the line a lookup answers from ----------

  /** The line at p sets option o, as anyone would read it. */
  ghost predicate IsOptionLine(text: string, p: nat, o: string) {
    && LineStart(text, p) && MatchAt(text, o + "=", p)
    && o != "" && o[0] != '[' && o[0] != '#' && '=' !in o && '\n' !in o
  }

  /** The line at h starts group g. */
  ghost predicate IsHeaderLine(text: string, h: nat, g: string) {
    LineStart(text, h) && MatchAt(text, "[" + g + "]\n", h) && '\n' !in g
  }

  ghost predicate Spells(text: string, p: int, pat: string) {
    0 <= p && p + |pat| <= |text| && forall i :: p <= i < p + |pat| ==> text[i] == pat[i - p]
  }

  lemma MatchSpells(text: string, p: nat, u: string, v: string)
    requires MatchAt(text, u + v, p)
    ensures Spells(text, p, u) && Spells(text, p + |u|, v)
  {
    WindowSplit(text, p, p + |u + v|, u, v);
    WindowSpells(text, p, u);
    WindowSpells(text, p + |u|, v);
  }

  lemma WindowSpells(text: string, p: nat, pat: string)
    requires p + |pat| <= |text| && text[p..p + |pat|] == pat
    ensures Spells(text, p, pat)
  {
    var w := text[p..p + |pat|];
    forall i | p <= i < p + |pat|
      ensures text[i] == pat[i - p]
    {
      assert w[i - p] == text[i];
    }
  }

  /** Where a line ends: at its first line feed behind the first character. */
  lemma LineSpells(doc: Document, p: nat, l: Line)
    requires IsLineAt(doc, p, l)
    ensures Spells(Text(doc), p, Body(l)) && LineOk(l) && EndsLine(Text(doc), p, |Body(l)|)
  {
    BodyAt(Text(doc), p, l);
    hide Text, Body, LineOk;
  }

  ghost predicate EndsLine(text: string, p: nat, n: nat) {
    && p + n <= |text| && (p + n < |text| ==> text[p + n] == '\n')
    && forall i :: p < i < p + n ==> text[i] != '\n'
  }

  lemma OptionLineIs(doc: Document, p: nat, o: string, l: Line)
    requires IsOptionLine(Text(doc), p, o) && IsLineAt(doc, p, l)
    ensures l.Setting? && l.name == o
  {
    LineSpells(doc, p, l);
    MatchSpells(Text(doc), p, o, "=");
    hide Text, LineOk, Body, MatchAt, LineStart, EndsLine, Spells, IsLineAt;
    OptionNameIs(Text(doc), p, o, l);
  }

  lemma OptionNameIs(text: string, p: nat, o: string, l: Line)
    requires Spells(text, p, o) && Spells(text, p + |o|, "=") && '=' !in o && '\n' !in o
    requires o != "" && o[0] != '[' && o[0] != '#'
    requires LineOk(l) && Spells(text, p, Body(l)) && EndsLine(text, p, |Body(l)|)
    ensures l.Setting? && l.name == o
  {
    var b := Body(l);
    assert text[p] == o[0] == b[0];
    assert l.Setting?;
    forall i | p <= i <= p + |o|
      ensures text[i] != '\n' && (i < p + |o| ==> text[i] != '=')
    {
      assert i < p + |o| ==> o[i - p] in o;
    }
    assert |o| < |b| && text[p + |o|] == b[|o|] == '=';
    assert forall i :: 1 <= i < |o| ==> b[i] == text[p + i];
    SignIsFirst(l, |o|);
    SameSpelling(text, p, o, l.name);
  }

  lemma SignIsFirst(l: Line, k: nat)
    requires LineOk(l) && l.Setting? && 1 <= k < |Body(l)| && Body(l)[k] == '=' && forall i :: 1 <= i < k ==> Body(l)[i] != '='
    ensures |l.name| == k
  {
    var b := Body(l);
    assert l.name != "" ==> b[|l.name|] == '=';
    assert forall i :: 1 <= i < |l.name| ==> l.name[1..][i - 1] == b[i];
    assert forall i :: |l.name| < i < |b| ==> b[i] == l.value[i - |l.name| - 1];
  }

  lemma SameSpelling(text: string, p: nat, u: string, v: string)
    requires Spells(text, p, u) && |u| == |v| && p + |v| <= |text| && forall i :: p <= i < p + |v| ==> text[i] == v[i - p]
    ensures u == v
  {
    forall i | 0 <= i < |u|
      ensures u[i] == v[i]
    {
      assert text[p + i] == u[i];
    }
  }

  lemma HeaderLineIs(doc: Document, h: nat, g: string, l: Line)
    requires IsHeaderLine(Text(doc), h, g) && IsLineAt(doc, h, l)
    ensures l == Header(g + "]") && HasLine(Text(doc), h, l)
  {
    LineSpells(doc, h, l);
    HeaderSpells(Text(doc), h, g, g + "]");
    hide Text, LineOk, Body, IsHeaderLine, EndsLine, Spells;
    HeaderNameIs(Text(doc), h, g + "]", l);
  }

  lemma HeaderSpells(text: string, h: nat, g: string, body: string)
    requires IsHeaderLine(text, h, g) && body == g + "]"
    ensures Spells(text, h, "[" + body) && Spells(text, h + 1 + |body|, "\n") && '\n' !in body
  {
    assert "[" + g + "]\n" == "[" + (body + "\n") == ("[" + body) + "\n";
    hide Spells;
    MatchSpells(text, h, "[", body + "\n");
    MatchSpells(text, h, "[" + body, "\n");
  }

  lemma HeaderNameIs(text: string, h: nat, body: string, l: Line)
    requires Spells(text, h, "[" + body) && Spells(text, h + 1 + |body|, "\n") && '\n' !in body
    requires LineOk(l) && Spells(text, h, Body(l)) && EndsLine(text, h, |Body(l)|)
    ensures l == Header(body) && h + |Body(l)| < |text|
  {
    var b := Body(l);
    assert text[h] == '[' == b[0];
    assert l.Header?;
    forall i | h <= i <= h + |body|
      ensures text[i] != '\n'
    {
      assert i > h ==> body[i - h - 1] in body;
    }
    assert text[h + 1 + |body|] == '\n';
    assert |b| == |body| + 1;
    SameSpelling(text, h, "[" + body, b);
    assert b[1..] == l.body && ("[" + body)[1..] == body;
  }

  /** The lookup takes the line at h for the group and answers from the line at p. */
  ghost predicate AnswersFrom(s: Store, g: string, o: string, h: nat, p: nat)
    requires StoreOk(s)
  {
    exists q, k :: IsFirstGroup(s, g, q) && IsFirstOption(s, q, o, k) && s.tokens[q].start == h + 1 && s.tokens[k].start == p
  }

  ghost predicate DocAnswersFrom(es: seq<Entry>, g: string, o: string, h: nat, p: nat) {
    exists q, k :: FirstGroupBy(es, PrefixOf(g), q) && FirstOptionBy(es, q, PrefixOf(o), k) && es[q].pos == h && es[k].pos == p
  }

  lemma AnswersAgree(s: Store, doc: Document, old_: seq<Token>, g: string, o: string, h: nat, p: nat)
    requires Loaded(s, doc, old_) && Askable(Entries(doc), g)
    ensures StoreOk(s) && (AnswersFrom(s, g, o, h, p) <==> DocAnswersFrom(Entries(doc), g, o, h, p))
  {
    var es := Entries(doc);
    LoadedIsScanned(s, doc, old_);
    FirstGroupsAgree(s, doc, old_, g);
    hide Loaded, Answers, Name, StoreOk, GroupSizesAre, EndIs;
    forall q | FirstGroupBy(es, PrefixOf(g), q)
      ensures s.tokens[q].level == Group && s.tokens[q].start == es[q].pos + 1
      ensures forall k :: IsFirstOption(s, q, o, k) <==> FirstOptionBy(es, q, PrefixOf(o), k)
      ensures forall k :: FirstOptionBy(es, q, PrefixOf(o), k) ==> s.tokens[k].start == es[k].pos
    {
      assert TokenIs(s.tokens[q], es[q]);
      FirstOptionsAgree(s, doc, old_, q, o);
    }
  }

  /** Nothing before the group's line answers for the group, and between the two lines are options only that do not answer. */
  ghost predicate ClearBetween(es: seq<Entry>, g: string, o: string, h: nat, p: nat) {
    && (forall i :: 0 <= i < |es| && es[i].pos < h && IsGroup(es[i]) ==> !Answers(Name(es[i]), g))
    && (forall i :: 0 <= i < |es| && h < es[i].pos < p ==> es[i].line.Setting? && !Answers(Name(es[i]), o))
  }

  lemma ClearMeansFirst(es: seq<Entry>, end: nat, g: string, o: string, q: nat, k: nat)
    requires InOrder(es, end) && Shown(es) && q < k < |es| && IsGroup(es[q]) && es[k].line.Setting?
    requires Answers(Name(es[q]), g) && Answers(Name(es[k]), o)
    ensures FirstGroupBy(es, PrefixOf(g), q) && FirstOptionBy(es, q, PrefixOf(o), k) <==>
            ClearBetween(es, g, o, es[q].pos, es[k].pos)
  {
    hide Answers, Name, IsGroup;
    if FirstGroupBy(es, PrefixOf(g), q) && FirstOptionBy(es, q, PrefixOf(o), k) {
      forall i | 0 <= i < |es| && es[i].pos < es[q].pos && IsGroup(es[i])
        ensures !Answers(Name(es[i]), g)
      {
        assert i < q && !PrefixOf(g).Hits(Name(es[i]));
      }
      forall i | 0 <= i < |es| && es[q].pos < es[i].pos < es[k].pos
        ensures es[i].line.Setting? && !Answers(Name(es[i]), o)
      {
        assert q < i < k && !PrefixOf(o).Hits(Name(es[i]));
      }
    }
    if ClearBetween(es, g, o, es[q].pos, es[k].pos) {
      assert forall i :: q < i <= k ==> es[i].line.Setting?;
    }
  }

  /**
   * Of a line "o=" somewhere behind a line "[g]", in any file: the lookup of o in g takes the one for the group and answers
   * from the other exactly when blank lines come in pairs before both, and no other line that is seen answers first.
   */
  lemma AnswersFromLineIff(s: Store, doc: Document, old_: seq<Token>, g: string, o: string, h: nat, p: nat)
    requires Loaded(s, doc, old_) && IsHeaderLine(Text(doc), h, g) && IsOptionLine(Text(doc), p, o) && h < p
    ensures StoreOk(s)
    ensures AnswersFrom(s, g, o, h, p) <==>
            && BlankLines(Text(doc), h) % 2 == 0 && BlankLines(Text(doc), p) % 2 == 0
            && ClearBetween(Entries(doc), g, o, h, p)
  {
    var text, es := Text(doc), Entries(doc);
    assert g != "" ==> g[0] in g;
    AnswersAgree(s, doc, old_, g, o, h, p);
    var tr := PassOf(text, old_);
    EntriesInOrder(doc);
    assert h < |text| && p < |text| && LineStart(text, h) && LineStart(text, p);
    assert DocOk(doc);
    hide Loaded, Text, Entries, DocOk, IsPass, ClearBetween, BlankLines, StoreOk, AnswersFrom, FirstGroupBy, FirstOptionBy;
    if IsSeen(text, h) && IsSeen(text, p) {
      SeenLinesAnswer(doc, tr, g, o, h, p);
    } else if DocAnswersFrom(es, g, o, h, p) {
      var q, k :| FirstGroupBy(es, PrefixOf(g), q) && FirstOptionBy(es, q, PrefixOf(o), k) && es[q].pos == h && es[k].pos == p;
      assert 0 <= q < |es| && 0 <= k < |es| by {
        InRange(es, g, o, q, k);
      }
      EntryIsSeen(doc, tr, q);
      EntryIsSeen(doc, tr, k);
    }
  }

  lemma InRange(es: seq<Entry>, g: string, o: string, q: int, k: int)
    requires FirstGroupBy(es, PrefixOf(g), q) && FirstOptionBy(es, q, PrefixOf(o), k)
    ensures 0 <= q < k < |es|
  {
  }

  lemma AnswersItself(name: string)
    ensures Answers(name, name)
  {
  }

  lemma SeenLinesHaveEntries(doc: Document, tr: seq<Lexer>, g: string, o: string, h: nat, p: nat) returns (q: nat, k: nat)
    requires DocOk(doc) && IsPass(Text(doc), tr) && IsSeen(Text(doc), h) && IsSeen(Text(doc), p)
    requires IsHeaderLine(Text(doc), h, g) && IsOptionLine(Text(doc), p, o)
    ensures q < |Entries(doc)| && Entries(doc)[q].pos == h && Entries(doc)[q].line == Header(g + "]")
    ensures k < |Entries(doc)| && Entries(doc)[k].pos == p && Entries(doc)[k].line.Setting? && Entries(doc)[k].line.name == o
  {
    assert h < |Text(doc)| && p < |Text(doc)|;
    hide IsPass, IsSeen, IsLineAt, HasLine, Text, Entries, DocOk, Body;
    var lh := SeenIsLine(doc, tr, h);
    HeaderLineIs(doc, h, g, lh);
    var lp := SeenIsLine(doc, tr, p);
    OptionLineIs(doc, p, o, lp);
    hide IsHeaderLine, IsOptionLine;
    q :| q < |Entries(doc)| && Entries(doc)[q].pos == h && Entries(doc)[q].line == lh;
    k :| k < |Entries(doc)| && Entries(doc)[k].pos == p && Entries(doc)[k].line == lp;
  }

  lemma SeenLinesAnswer(doc: Document, tr: seq<Lexer>, g: string, o: string, h: nat, p: nat)
    requires DocOk(doc) && IsPass(Text(doc), tr) && IsSeen(Text(doc), h) && IsSeen(Text(doc), p) && h < p
    requires IsHeaderLine(Text(doc), h, g) && IsOptionLine(Text(doc), p, o) && InOrder(Entries(doc), |Text(doc)|)
    ensures DocAnswersFrom(Entries(doc), g, o, h, p) <==> ClearBetween(Entries(doc), g, o, h, p)
  {
    var q, k := SeenLinesHaveEntries(doc, tr, g, o, h, p);
    hide IsPass, IsSeen, IsHeaderLine, IsOptionLine, Text, DocOk, Entries;
    assert (g + "]")[..|g + "]"| - 1] == g;
    EntriesAnswer(Entries(doc), |Text(doc)|, g, o, q, k);
  }

  lemma EntriesAnswer(es: seq<Entry>, end: nat, g: string, o: string, q: nat, k: nat)
    requires InOrder(es, end) && Shown(es) && q < |es| && k < |es| && es[q].pos < es[k].pos
    requires IsGroup(es[q]) && Name(es[q]) == g && es[k].line.Setting? && Name(es[k]) == o
    ensures DocAnswersFrom(es, g, o, es[q].pos, es[k].pos) <==> ClearBetween(es, g, o, es[q].pos, es[k].pos)
  {
    AnswersItself(g);
    AnswersItself(o);
    assert q < k;
    ClearMeansFirst(es, end, g, o, q, k);
    hide Answers, ClearBetween, FirstGroupBy, FirstOptionBy;
    if DocAnswersFrom(es, g, o, es[q].pos, es[k].pos) {
      var q', k' :| FirstGroupBy(es, PrefixOf(g), q') && FirstOptionBy(es, q', PrefixOf(o), k')
                    && es[q'].pos == es[q].pos && es[k'].pos == es[k].pos;
      InRange(es, g, o, q', k');
      assert q' == q && k' == k;
    }
  }
}
