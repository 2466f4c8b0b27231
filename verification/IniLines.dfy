/** A configuration file as the lines the tokenizer takes it for, and the tokens that come of every file. */
module IniLines {
  import opened IniConfig

  /**
   * A header's last character is left out of its name, whatever it is. An option's sign is the first '=' behind its first
   * character; without one the option has no name, and its first character counts as the sign. A line feed can only be
   * the first character: a blank line is taken as the start of the line behind it.
   */
  datatype Line = Header(body: string) | Setting(name: string, sign: char, value: string) | Comment(text: string)

  function Body(l: Line): (s: string)
    ensures 1 <= |s|
  {
    match l
    case Header(body) => "[" + body
    case Setting(name, sign, value) => name + [sign] + value
    case Comment(text) => "#" + text
  }

  function RenderLine(l: Line): (s: string)
    ensures |s| == |Body(l)| + 1
  {
    Body(l) + "\n"
  }

  ghost predicate SignOk(name: string, sign: char, value: string) {
    if name == "" then sign != '[' && sign != '#' && '=' !in value
    else name[0] != '[' && name[0] != '#' && sign == '=' && '=' !in name[1..]
  }

  ghost predicate LineOk(l: Line) {
    && '\n' !in Body(l)[1..]
    && (l.Setting? ==> SignOk(l.name, l.sign, l.value))
  }

  /** What follows the last line feed of a file. */
  datatype Tail = NoTail | Tail(line: Line)

  datatype Document = Document(lines: seq<Line>, last: Tail)

  ghost predicate DocOk(doc: Document) {
    && (forall i :: 0 <= i < |doc.lines| ==> LineOk(doc.lines[i]))
    && (doc.last.Tail? ==> LineOk(doc.last.line))
  }

  /** The text of the first n lines. */
  function RenderTo(lines: seq<Line>, n: nat): string
    requires n <= |lines|
  {
    if n == 0 then "" else RenderTo(lines, n - 1) + RenderLine(lines[n - 1])
  }

  function Text(doc: Document): string {
    RenderTo(doc.lines, |doc.lines|) + if doc.last.Tail? then Body(doc.last.line) else ""
  }

  /** A line that becomes a token, where it starts in the file, and whether a line feed ends it. */
  datatype Entry = Entry(pos: nat, line: Line, ended: bool)

  function AddEntry(es: seq<Entry>, p: nat, l: Line): seq<Entry> {
    if l.Comment? then es else es + [Entry(p, l, true)]
  }

  function EntriesTo(lines: seq<Line>, n: nat): (es: seq<Entry>)
    requires n <= |lines|
    ensures Shown(es) && forall k :: 0 <= k < |es| ==> es[k].ended
  {
    if n == 0 then [] else AddEntry(EntriesTo(lines, n - 1), |RenderTo(lines, n - 1)|, lines[n - 1])
  }

  /** Of lines that are not ended the options count, the headers do not. */
  function Entries(doc: Document): (es: seq<Entry>)
    ensures Shown(es)
  {
    EntriesTo(doc.lines, |doc.lines|) +
    if doc.last.Tail? && doc.last.line.Setting? then [Entry(|RenderTo(doc.lines, |doc.lines|)|, doc.last.line, false)] else []
  }

  ghost predicate Shown(es: seq<Entry>) {
    forall k :: 0 <= k < |es| ==> !es[k].line.Comment? && (es[k].line.Header? ==> es[k].ended)
  }

  /** The number of options from entry k on, up to the next group. */
  function Settings(es: seq<Entry>, k: nat): (n: nat)
    requires k <= |es|
    ensures k + n <= |es|
    ensures forall i :: k <= i < k + n ==> !es[i].line.Header?
    ensures k + n < |es| ==> es[k + n].line.Header?
    decreases |es| - k
  {
    if k == |es| || es[k].line.Header? then 0 else 1 + Settings(es, k + 1)
  }

  lemma {:induction false} SettingsOfSnoc(es: seq<Entry>, e: Entry, k: nat)
    requires k <= |es|
    ensures Settings(es + [e], k) ==
            Settings(es, k) + (if k + Settings(es, k) == |es| && !e.line.Header? then 1 else 0)
    decreases |es| - k
  {
    if k < |es| && !es[k].line.Header? {
      SettingsOfSnoc(es, e, k + 1);
    }
  }

  ghost predicate TokenIs(t: Token, e: Entry) {
    match e.line
    case Header(body) => t.level == Group && t.start == e.pos + 1 && t.end == e.pos + |body|
    case Setting(name, sign, value) => t.level == Option && t.start == e.pos && t.eqSignIdx == e.pos + |name|
    case Comment(_) => false
  }

  /** An option ends at its line feed; without one, its token still ends where it starts. */
  ghost predicate EndIs(t: Token, e: Entry) {
    e.line.Setting? ==> t.end == if e.ended then e.pos + |Body(e.line)| else e.pos
  }

  /** Group token k counts the options between its entry and the next group. */
  ghost predicate GroupSizeIs(tokens: seq<Token>, es: seq<Entry>, k: int)
    requires 0 <= k < |es| <= |tokens|
  {
    tokens[k].size == Settings(es, k + 1)
  }

  ghost predicate GroupSizesAre(tokens: seq<Token>, es: seq<Entry>)
    requires |es| <= |tokens|
  {
    forall k {:trigger GroupSizeIs(tokens, es, k)} :: 0 <= k < |es| && es[k].line.Header? ==> GroupSizeIs(tokens, es, k)
  }

  /** The tokens are the entries; each group token counts its options. */
  ghost predicate TokensAre(tokens: seq<Token>, es: seq<Entry>) {
    && |es| <= |tokens|
    && (forall k :: 0 <= k < |es| ==> TokenIs(tokens[k], es[k]))
    && (forall k :: 0 < k < |es| ==> EndIs(tokens[k], es[k]))
    && GroupSizesAre(tokens, es)
  }

  /** Options are counted by the last group, or by token 0 as long as there is none. */
  ghost predicate CountsAt(es: seq<Entry>, gi: nat) {
    && gi <= |es|
    && (es != [] ==> gi < |es| && (gi == 0 || es[gi].line.Header?) && forall k :: gi < k < |es| ==> !es[k].line.Header?)
  }

  ghost predicate Fresh(st: Lexer) {
    st.newLine && !st.valueStarted && !st.commentLine
  }

  ghost predicate Scanned(st: Lexer, es: seq<Entry>) {
    Fresh(st) && st.tokenIndex == |es| && TokensAre(st.tokens, es) && CountsAt(es, st.groupIndex)
  }

  // ---------- one line at a time ----------

  ghost predicate StepAt(text: string, tr: seq<Lexer>, i: nat)
    requires i < |text| && |tr| == |text| + 1
  {
    Room(tr[i]) && tr[i + 1] == Step(tr[i], text[i], i)
  }

  /** The states of one pass over the text, one before each character and one at the end. */
  ghost predicate IsTrace(text: string, tr: seq<Lexer>) {
    |tr| == |text| + 1 && forall i {:trigger StepAt(text, tr, i)} :: 0 <= i < |text| ==> StepAt(text, tr, i)
  }

  ghost function TraceOf(old_: seq<Token>, text: string): (tr: seq<Lexer>)
    requires |text| <= 2 * |old_|
    ensures IsTrace(text, tr)
    ensures tr[0] == Scan(old_, text, 0) && tr[|text|] == Scan(old_, text, |text|)
  {
    seq(|text| + 1, i requires 0 <= i <= |text| => Scan(old_, text, i))
  }

  /** A state that differs from st only in what an equals sign leaves on the current token. */
  ghost function Touched(st: Lexer, eq: int, started: bool): Lexer
    requires st.tokenIndex < |st.tokens|
  {
    st.(valueStarted := started, tokens := st.tokens[st.tokenIndex := st.tokens[st.tokenIndex].(eqSignIdx := eq)])
  }

  /** Inside a line only an equals sign changes anything. */
  lemma {:induction false} RunInLine(text: string, tr: seq<Lexer>, q: nat, k: nat) returns (eq: int, started: bool)
    requires IsTrace(text, tr) && q + k <= |text| && !tr[q].newLine && tr[q].tokenIndex < |tr[q].tokens|
    requires forall i :: q <= i < q + k ==> text[i] != '\n'
    ensures tr[q + k] == Touched(tr[q], eq, started)
    ensures tr[q].valueStarted || (forall i :: q <= i < q + k ==> text[i] != '=') ==> tr[q + k] == tr[q]
    decreases k
  {
    if k == 0 {
      eq, started := tr[q].tokens[tr[q].tokenIndex].eqSignIdx, tr[q].valueStarted;
    } else {
      eq, started := RunInLine(text, tr, q, k - 1);
      assert StepAt(text, tr, q + k - 1);
      if text[q + k - 1] == '=' && !tr[q + k - 1].valueStarted {
        eq, started := q + k - 1, true;
      }
    }
  }

  /** Line l stands in the text at p. */
  ghost predicate HasBody(text: string, p: nat, l: Line) {
    p + |Body(l)| <= |text| && text[p..p + |Body(l)|] == Body(l)
  }

  /** And a line feed ends it. */
  ghost predicate HasLine(text: string, p: nat, l: Line) {
    HasBody(text, p, l) && p + |Body(l)| < |text| && text[p + |Body(l)|] == '\n'
  }

  lemma BodyAt(text: string, p: nat, l: Line)
    requires HasBody(text, p, l) && LineOk(l)
    ensures forall i :: p <= i < p + |Body(l)| ==> text[i] == Body(l)[i - p]
    ensures forall i :: p < i < p + |Body(l)| ==> text[i] != '\n'
  {
    var b := Body(l);
    forall i | p <= i < p + |b|
      ensures text[i] == b[i - p] && (p < i ==> text[i] != '\n')
    {
      assert text[p..p + |b|][i - p] == b[i - p];
      assert p < i ==> b[i - p] == b[1..][i - p - 1];
    }
  }

  lemma HeaderLine(text: string, tr: seq<Lexer>, p: nat, body: string) returns (eq: int)
    requires IsTrace(text, tr) && HasLine(text, p, Header(body)) && LineOk(Header(body)) && Fresh(tr[p])
    ensures var st := tr[p];
            && st.tokenIndex < |st.tokens|
            && tr[p + |body| + 2] ==
               Lexer(true, false, false, st.tokens[st.tokenIndex := Token(p + 1, eq, p + |body|, 0, Group)],
                     st.tokenIndex + 1, st.tokenIndex)
  {
    BodyAt(text, p, Header(body));
    assert StepAt(text, tr, p);
    var started: bool;
    eq, started := RunInLine(text, tr, p + 1, |body|);
    assert StepAt(text, tr, p + |body| + 1);
  }

  /** A comment sets nothing but what an equals sign sets. */
  lemma CommentBody(text: string, tr: seq<Lexer>, p: nat, comment: string) returns (eq: int, started: bool)
    requires IsTrace(text, tr) && HasBody(text, p, Comment(comment)) && LineOk(Comment(comment)) && Fresh(tr[p])
    ensures tr[p].tokenIndex < |tr[p].tokens|
    ensures tr[p + |comment| + 1] == Touched(tr[p], eq, started).(newLine := false, commentLine := true)
  {
    BodyAt(text, p, Comment(comment));
    assert StepAt(text, tr, p);
    eq, started := RunInLine(text, tr, p + 1, |comment|);
  }

  lemma CommentLine(text: string, tr: seq<Lexer>, p: nat, comment: string) returns (eq: int)
    requires IsTrace(text, tr) && HasLine(text, p, Comment(comment)) && LineOk(Comment(comment)) && Fresh(tr[p])
    ensures tr[p].tokenIndex < |tr[p].tokens|
    ensures tr[p + |comment| + 2] == Touched(tr[p], eq, false)
  {
    var started: bool;
    eq, started := CommentBody(text, tr, p, comment);
    assert StepAt(text, tr, p + |comment| + 1);
  }

  /** The tokens after an option has been counted and written to the array. */
  ghost function WithSetting(st: Lexer, t: Token): seq<Token>
    requires st.groupIndex <= st.tokenIndex < |st.tokens|
  {
    st.tokens[st.groupIndex := st.tokens[st.groupIndex].(size := st.tokens[st.groupIndex].size + 1)][st.tokenIndex := t]
  }

  /** At the end of an option's text its token has its start and sign, and not yet its end. */
  lemma SettingBody(text: string, tr: seq<Lexer>, p: nat, l: Line) returns (started: bool)
    requires IsTrace(text, tr) && HasBody(text, p, l) && LineOk(l) && l.Setting? && Fresh(tr[p])
    ensures var st := tr[p];
            && st.groupIndex <= st.tokenIndex < |st.tokens|
            && tr[p + |Body(l)|] ==
               Lexer(false, started, false, WithSetting(st, Token(p, p + |l.name|, p, 1, Option)), st.tokenIndex, st.groupIndex)
  {
    BodyAt(text, p, l);
    var Setting(name, sign, value) := l;
    var st, ti, gi := tr[p], tr[p].tokenIndex, tr[p].groupIndex;
    assert StepAt(text, tr, p);
    assert tr[p + 1] == Lexer(false, false, false, WithSetting(st, Token(p, p, p, 1, Option)), ti, gi);
    if name == "" {
      forall i | 0 <= i < |value|
        ensures text[p + 1 + i] == value[i]
      {
      }
      var _, _ := RunInLine(text, tr, p + 1, |value|);
      started := false;
    } else {
      forall i | p + 1 <= i < p + |name|
        ensures text[i] != '='
      {
        assert text[i] == name[1..][i - p - 1];
      }
      var _, _ := RunInLine(text, tr, p + 1, |name| - 1);
      assert StepAt(text, tr, p + |name|);
      assert tr[p + |name| + 1] == Lexer(false, true, false, WithSetting(st, Token(p, p + |name|, p, 1, Option)), ti, gi);
      var _, _ := RunInLine(text, tr, p + |name| + 1, |value|);
      started := true;
    }
  }

  lemma SettingLine(text: string, tr: seq<Lexer>, p: nat, l: Line)
    requires IsTrace(text, tr) && HasLine(text, p, l) && LineOk(l) && l.Setting? && Fresh(tr[p])
    ensures var st := tr[p];
            var end := if st.tokenIndex == st.groupIndex then p + |Body(l)| - 1 else p + |Body(l)|;
            && st.groupIndex <= st.tokenIndex < |st.tokens|
            && tr[p + |RenderLine(l)|] ==
               Lexer(true, false, false, WithSetting(st, Token(p, p + |l.name|, end, 1, Option)), st.tokenIndex + 1, st.groupIndex)
  {
    var _ := SettingBody(text, tr, p, l);
    hide Body;
    assert StepAt(text, tr, p + |Body(l)|);
  }

  // ---------- a whole file ----------

  lemma SettingsOfSnocs(es: seq<Entry>, e: Entry)
    ensures forall k :: 0 <= k <= |es| ==>
              Settings(es + [e], k) == Settings(es, k) + (if k + Settings(es, k) == |es| && !e.line.Header? then 1 else 0)
  {
    forall k | 0 <= k <= |es|
      ensures Settings(es + [e], k) == Settings(es, k) + (if k + Settings(es, k) == |es| && !e.line.Header? then 1 else 0)
    {
      SettingsOfSnoc(es, e, k);
    }
  }

  /** Only the last group's options reach the end of the file. */
  lemma LastGroupReachesEnd(es: seq<Entry>, last: nat, k: nat)
    requires CountsAt(es, last) && k < |es| && es[k].line.Header?
    ensures es[last].line.Header? && (k + 1 + Settings(es, k + 1) == |es| <==> k == last)
  {
    assert k <= last;
    if k + 1 + Settings(es, k + 1) == |es| && k < last {
      assert false;
    }
  }

  /** Adding one line's token to a scanned prefix of the file. */
  lemma AddHeader(st: Lexer, es: seq<Entry>, e: Entry, eq: int)
    requires Scanned(st, es) && |es| < |st.tokens| && e.line.Header?
    ensures Scanned(Lexer(true, false, false, st.tokens[|es| := Token(e.pos + 1, eq, e.pos + |e.line.body|, 0, Group)],
                          |es| + 1, |es|), es + [e])
  {
    SettingsOfSnocs(es, e);
    var tokens := st.tokens[|es| := Token(e.pos + 1, eq, e.pos + |e.line.body|, 0, Group)];
    forall k {:trigger GroupSizeIs(tokens, es + [e], k)} | 0 <= k <= |es| && (es + [e])[k].line.Header?
      ensures GroupSizeIs(tokens, es + [e], k)
    {
      assert k < |es| ==> GroupSizeIs(st.tokens, es, k);
    }
  }

  lemma AddSetting(st: Lexer, es: seq<Entry>, e: Entry, t: Token)
    requires Scanned(st, es) && |es| < |st.tokens| && e.line.Setting? && TokenIs(t, e) && (es != [] ==> EndIs(t, e))
    ensures TokensAre(WithSetting(st, t), es + [e]) && CountsAt(es + [e], st.groupIndex)
  {
    var tokens, es' := WithSetting(st, t), es + [e];
    SettingsOfSnocs(es, e);
    forall k {:trigger GroupSizeIs(tokens, es', k)} | 0 <= k < |es'| && es'[k].line.Header?
      ensures GroupSizeIs(tokens, es', k)
    {
      assert GroupSizeIs(st.tokens, es, k);
      LastGroupReachesEnd(es, st.groupIndex, k);
    }
  }

  lemma TouchedTokens(st: Lexer, es: seq<Entry>, eq: int, started: bool)
    requires Scanned(st, es) && |es| < |st.tokens|
    ensures TokensAre(Touched(st, eq, started).tokens, es)
  {
    SpareToken(st.tokens, es, st.tokens[|es|].(eqSignIdx := eq));
  }

  /** The token behind the last entry is not looked at. */
  lemma SpareToken(tokens: seq<Token>, es: seq<Entry>, t: Token)
    requires TokensAre(tokens, es) && |es| < |tokens|
    ensures TokensAre(tokens[|es| := t], es)
  {
    var tokens' := tokens[|es| := t];
    forall k {:trigger GroupSizeIs(tokens', es, k)} | 0 <= k < |es| && es[k].line.Header?
      ensures GroupSizeIs(tokens', es, k)
    {
      assert GroupSizeIs(tokens, es, k);
    }
  }

  lemma BodyLength(l: Line)
    ensures |Body(l)| == match l case Header(body) => |body| + 1
                                 case Setting(name, sign, value) => |name| + |value| + 1
                                 case Comment(text) => |text| + 1
  {
  }

  lemma AddHeaderLine(text: string, tr: seq<Lexer>, p: nat, es: seq<Entry>, l: Line)
    requires IsTrace(text, tr) && HasLine(text, p, l) && LineOk(l) && Scanned(tr[p], es) && l.Header?
    ensures Scanned(tr[p + |RenderLine(l)|], es + [Entry(p, l, true)])
  {
    BodyLength(l);
    var eq := HeaderLine(text, tr, p, l.body);
    AddHeader(tr[p], es, Entry(p, l, true), eq);
  }

  lemma AddSettingLine(text: string, tr: seq<Lexer>, p: nat, es: seq<Entry>, l: Line)
    requires IsTrace(text, tr) && HasLine(text, p, l) && LineOk(l) && Scanned(tr[p], es) && l.Setting?
    ensures Scanned(tr[p + |RenderLine(l)|], es + [Entry(p, l, true)])
  {
    var gi, length := tr[p].groupIndex, |Body(l)|;
    SettingLine(text, tr, p, l);
    hide *;
    SettingToken(text, tr, p, es, l, if |es| == gi then p + length - 1 else p + length);
  }

  lemma SettingToken(text: string, tr: seq<Lexer>, p: nat, es: seq<Entry>, l: Line, end: int)
    requires p < |tr| && Scanned(tr[p], es) && l.Setting? && |es| < |tr[p].tokens|
    requires end == if |es| == tr[p].groupIndex then p + |Body(l)| - 1 else p + |Body(l)|
    ensures var st := Lexer(true, false, false, WithSetting(tr[p], Token(p, p + |l.name|, end, 1, Option)), |es| + 1, tr[p].groupIndex);
            Scanned(st, es + [Entry(p, l, true)])
  {
    hide Body;
    AddSetting(tr[p], es, Entry(p, l, true), Token(p, p + |l.name|, end, 1, Option));
    hide TokensAre, CountsAt;
  }

  lemma AddCommentLine(text: string, tr: seq<Lexer>, p: nat, es: seq<Entry>, l: Line)
    requires IsTrace(text, tr) && HasLine(text, p, l) && LineOk(l) && Scanned(tr[p], es) && l.Comment?
    ensures Scanned(tr[p + |RenderLine(l)|], es)
  {
    BodyLength(l);
    var eq := CommentLine(text, tr, p, l.text);
    TouchedTokens(tr[p], es, eq, false);
  }

  lemma ScanOneLine(text: string, tr: seq<Lexer>, p: nat, es: seq<Entry>, l: Line) returns (st: Lexer, es': seq<Entry>)
    requires IsTrace(text, tr) && HasLine(text, p, l) && LineOk(l) && Scanned(tr[p], es)
    ensures st == tr[p + |RenderLine(l)|] && es' == AddEntry(es, p, l) && Scanned(st, es')
  {
    st, es' := tr[p + |RenderLine(l)|], AddEntry(es, p, l);
    match l
    case Header(_) => AddHeaderLine(text, tr, p, es, l);
    case Setting(_, _, _) => AddSettingLine(text, tr, p, es, l);
    case Comment(_) => AddCommentLine(text, tr, p, es, l);
  }

  lemma HasLineInPrefix(text: string, text': string, p: nat, l: Line)
    requires HasLine(text, p, l) && text <= text'
    ensures HasLine(text', p, l)
  {
    assert text'[p..p + |Body(l)|] == text'[..|text|][p..p + |Body(l)|];
  }

  lemma HasBodyInPrefix(text: string, text': string, p: nat, l: Line)
    requires HasBody(text, p, l) && text <= text'
    ensures HasBody(text', p, l)
  {
    assert text'[p..p + |Body(l)|] == text'[..|text|][p..p + |Body(l)|];
  }

  lemma SuffixIsBody(before: string, l: Line, rest: string)
    ensures HasBody(before + Body(l) + rest, |before|, l)
  {
    hide Body;
    assert (before + Body(l) + rest)[|before|..|before| + |Body(l)|] == Body(l);
  }

  /** Line n of the document stands right after the text of the lines before it. */
  lemma NextLine(lines: seq<Line>, n: nat)
    requires n < |lines|
    ensures HasLine(RenderTo(lines, n + 1), |RenderTo(lines, n)|, lines[n])
    ensures RenderTo(lines, n) <= RenderTo(lines, n + 1)
    ensures |RenderTo(lines, n + 1)| == |RenderTo(lines, n)| + |RenderLine(lines[n])|
  {
    SuffixIsBody(RenderTo(lines, n), lines[n], "\n");
    assert RenderTo(lines, n) + Body(lines[n]) + "\n" == RenderTo(lines, n + 1);
    hide Body;
  }

  lemma PrefixTrans(a: string, b: string, c: string)
    requires a <= b <= c
    ensures a <= c
  {
  }

  lemma {:induction false} LinesAreScanned(text: string, tr: seq<Lexer>, lines: seq<Line>, n: nat)
      returns (st: Lexer, es: seq<Entry>)
    requires IsTrace(text, tr) && Fresh(tr[0]) && tr[0].tokenIndex == 0 && tr[0].groupIndex == 0
    requires (forall i :: 0 <= i < |lines| ==> LineOk(lines[i])) && n <= |lines| && RenderTo(lines, n) <= text
    ensures st == tr[|RenderTo(lines, n)|] && es == EntriesTo(lines, n) && Scanned(st, es)
  {
    hide RenderLine, Body;
    if n == 0 {
      return tr[0], [];
    }
    var p, l := |RenderTo(lines, n - 1)|, lines[n - 1];
    NextLine(lines, n - 1);
    PrefixTrans(RenderTo(lines, n - 1), RenderTo(lines, n), text);
    HasLineInPrefix(RenderTo(lines, n), text, p, l);
    st, es := LinesAreScanned(text, tr, lines, n - 1);
    st, es := ScanOneLine(text, tr, p, es, l);
  }

  lemma HeaderTail(text: string, tr: seq<Lexer>, p: nat, es: seq<Entry>, l: Line)
    requires IsTrace(text, tr) && HasBody(text, p, l) && LineOk(l) && Scanned(tr[p], es) && l.Header?
    ensures tr[p + |Body(l)|].tokenIndex == |es| && TokensAre(tr[p + |Body(l)|].tokens, es)
  {
    BodyAt(text, p, l);
    BodyLength(l);
    assert StepAt(text, tr, p);
    var eq, _ := RunInLine(text, tr, p + 1, |l.body|);
    var tokens, t := tr[p].tokens, tr[p + |Body(l)|].tokens[|es|];
    assert tr[p + |Body(l)|].tokens == tokens[|es| := t];
    SpareToken(tokens, es, t);
  }

  lemma SettingTail(text: string, tr: seq<Lexer>, p: nat, es: seq<Entry>, l: Line)
    requires IsTrace(text, tr) && HasBody(text, p, l) && LineOk(l) && Scanned(tr[p], es) && l.Setting?
    ensures tr[p + |Body(l)|].tokenIndex == |es| && TokensAre(tr[p + |Body(l)|].tokens, es + [Entry(p, l, false)])
  {
    var _ := SettingBody(text, tr, p, l);
    hide Body, HasBody, LineOk, IsTrace;
    AddSetting(tr[p], es, Entry(p, l, false), Token(p, p + |l.name|, p, 1, Option));
  }

  lemma CommentTail(text: string, tr: seq<Lexer>, p: nat, es: seq<Entry>, l: Line)
    requires IsTrace(text, tr) && HasBody(text, p, l) && LineOk(l) && Scanned(tr[p], es) && l.Comment?
    ensures tr[p + |Body(l)|].tokenIndex == |es| && TokensAre(tr[p + |Body(l)|].tokens, es)
  {
    BodyLength(l);
    var eq, started := CommentBody(text, tr, p, l.text);
    TouchedTokens(tr[p], es, eq, started);
  }

  /** What a text without a line feed leaves behind the last line. */
  lemma ScanTail(text: string, tr: seq<Lexer>, p: nat, es: seq<Entry>, l: Line)
    requires IsTrace(text, tr) && HasBody(text, p, l) && LineOk(l) && Scanned(tr[p], es)
    ensures var st := tr[p + |Body(l)|];
            st.tokenIndex == |es| && TokensAre(st.tokens, if l.Setting? then es + [Entry(p, l, false)] else es)
  {
    match l
    case Header(_) => HeaderTail(text, tr, p, es, l);
    case Setting(_, _, _) => SettingTail(text, tr, p, es, l);
    case Comment(_) => CommentTail(text, tr, p, es, l);
  }

  lemma TailStands(doc: Document)
    requires doc.last.Tail?
    ensures var before := RenderTo(doc.lines, |doc.lines|);
            && before <= Text(doc) && |Text(doc)| == |before| + |Body(doc.last.line)|
            && HasBody(Text(doc), |before|, doc.last.line)
  {
    var before, l := RenderTo(doc.lines, |doc.lines|), doc.last.line;
    SuffixIsBody(before, l, "");
    hide Body, RenderTo;
    assert before + Body(l) + "" == Text(doc);
  }

  lemma TextWithoutTail(doc: Document)
    requires doc.last.NoTail?
    ensures Text(doc) == RenderTo(doc.lines, |doc.lines|) && Entries(doc) == EntriesTo(doc.lines, |doc.lines|)
  {
  }

  lemma EntriesWithTail(doc: Document, es: seq<Entry>, p: nat)
    requires doc.last.Tail? && es == EntriesTo(doc.lines, |doc.lines|) && p == |RenderTo(doc.lines, |doc.lines|)|
    ensures Entries(doc) == if doc.last.line.Setting? then es + [Entry(p, doc.last.line, false)] else es
  {
  }

  lemma LinesThenTail(text: string, tr: seq<Lexer>, lines: seq<Line>, l: Line, p: nat, es: seq<Entry>, all: seq<Entry>)
    requires IsTrace(text, tr) && Fresh(tr[0]) && tr[0].tokenIndex == 0 && tr[0].groupIndex == 0
    requires (forall i :: 0 <= i < |lines| ==> LineOk(lines[i])) && LineOk(l) && HasBody(text, p, l) && |text| == p + |Body(l)|
    requires RenderTo(lines, |lines|) <= text && p == |RenderTo(lines, |lines|)| && es == EntriesTo(lines, |lines|)
    requires all == if l.Setting? then es + [Entry(p, l, false)] else es
    ensures tr[|text|].tokenIndex == |es| && TokensAre(tr[|text|].tokens, all)
  {
    hide Body, RenderTo, EntriesTo, LineOk, TokensAre;
    var _, _ := LinesAreScanned(text, tr, lines, |lines|);
    ScanTail(text, tr, p, es, l);
  }

  lemma TraceWithTail(tr: seq<Lexer>, doc: Document, text: string)
    requires DocOk(doc) && text == Text(doc) && doc.last.Tail?
    requires IsTrace(text, tr) && Fresh(tr[0]) && tr[0].tokenIndex == 0 && tr[0].groupIndex == 0
    ensures tr[|text|].tokenIndex == |EntriesTo(doc.lines, |doc.lines|)| && TokensAre(tr[|text|].tokens, Entries(doc))
  {
    hide *;
    var lines, l, p, es := doc.lines, doc.last.line, |RenderTo(doc.lines, |doc.lines|)|, EntriesTo(doc.lines, |doc.lines|);
    LinesOk(doc);
    TailStands(doc);
    EntriesWithTail(doc, es, p);
    LinesThenTail(text, tr, lines, l, p, es, Entries(doc));
  }

  lemma LinesOk(doc: Document)
    requires DocOk(doc)
    ensures forall i :: 0 <= i < |doc.lines| ==> LineOk(doc.lines[i])
    ensures doc.last.Tail? ==> LineOk(doc.last.line)
  {
  }

  lemma TraceIsScanned(tr: seq<Lexer>, doc: Document, text: string)
    requires DocOk(doc) && text == Text(doc)
    requires IsTrace(text, tr) && Fresh(tr[0]) && tr[0].tokenIndex == 0 && tr[0].groupIndex == 0
    ensures tr[|text|].tokenIndex == |EntriesTo(doc.lines, |doc.lines|)| && TokensAre(tr[|text|].tokens, Entries(doc))
  {
    hide Body, RenderTo, EntriesTo, Entries, LineOk, Text, TokensAre;
    if doc.last.Tail? {
      TraceWithTail(tr, doc, text);
    } else {
      TextWithoutTail(doc);
      var _, _ := LinesAreScanned(text, tr, doc.lines, |doc.lines|);
    }
  }

  /** Whatever the document, the tokens of its text are its entries, of which the finished ones are counted. */
  lemma DocIsScanned(old_: seq<Token>, doc: Document)
    requires DocOk(doc) && |Text(doc)| <= 2 * |old_|
    ensures var st := Scan(old_, Text(doc), |Text(doc)|);
            st.tokenIndex == |EntriesTo(doc.lines, |doc.lines|)| && TokensAre(st.tokens, Entries(doc))
  {
    hide Text, Entries, EntriesTo, TokensAre, DocOk;
    TraceIsScanned(TraceOf(old_, Text(doc)), doc, Text(doc));
  }

  // ---------- every file is a document ----------

  /** The first c in r from i on, or the end. */
  function IndexOf(r: string, c: char, i: nat): (k: nat)
    requires i <= |r|
    ensures i <= k <= |r| && c !in r[i..k] && (k < |r| ==> r[k] == c)
    decreases |r| - i
  {
    if i == |r| || r[i] == c then i
    else
      var k := IndexOf(r, c, i + 1);
      assert r[i..k] == [r[i]] + r[i + 1..k];
      k
  }

  lemma TakeLine(r: string) returns (l: Line)
    requires r != "" && '\n' !in r[1..]
    ensures LineOk(l) && Body(l) == r
  {
    if r[0] == '[' {
      l := Header(r[1..]);
    } else if r[0] == '#' {
      l := Comment(r[1..]);
    } else {
      var k := IndexOf(r, '=', 1);
      if k == |r| {
        l := Setting("", r[0], r[1..]);
        assert r[1..k] == r[1..];
      } else {
        l := Setting(r[..k], r[k], r[k + 1..]);
        assert r[..k][1..] == r[1..k];
      }
    }
    assert Body(l) == r;
  }

  lemma SnocLine(lines: seq<Line>, l: Line)
    ensures RenderTo(lines + [l], |lines| + 1) == RenderTo(lines, |lines|) + Body(l) + "\n"
  {
    hide Body;
    RenderOfPrefix(lines, l, |lines|);
  }

  lemma {:induction false} RenderOfPrefix(lines: seq<Line>, l: Line, n: nat)
    requires n <= |lines|
    ensures RenderTo(lines + [l], n) == RenderTo(lines, n)
  {
    if n > 0 {
      RenderOfPrefix(lines, l, n - 1);
    }
  }

  lemma {:induction false} TakeLines(text: string, lines: seq<Line>, p: nat) returns (doc: Document)
    requires p <= |text| && text[..p] == RenderTo(lines, |lines|) && forall i :: 0 <= i < |lines| ==> LineOk(lines[i])
    ensures DocOk(doc) && Text(doc) == text
    decreases |text| - p
  {
    hide Body, LineOk, RenderTo;
    if p == |text| {
      doc := Document(lines, NoTail);
    } else {
      var q := IndexOf(text, '\n', p + 1);
      LineAhead(text, p, q);
      var l := TakeLine(text[p..q]);
      if q == |text| {
        doc := Document(lines, Tail(l));
      } else {
        SnocLine(lines, l);
        hide Text;
        doc := TakeLines(text, lines + [l], q + 1);
      }
    }
  }

  lemma LineAhead(text: string, p: nat, q: nat)
    requires p < q <= |text| && '\n' !in text[p + 1..q] && (q < |text| ==> text[q] == '\n')
    ensures '\n' !in text[p..q][1..]
    ensures if q == |text| then text == text[..p] + text[p..q] else text[..q + 1] == text[..p] + text[p..q] + "\n"
  {
    assert text[p..q][1..] == text[p + 1..q];
  }

  /** Every text is the text of a document. */
  lemma EveryFileIsDocument(text: string) returns (doc: Document)
    ensures DocOk(doc) && Text(doc) == text
  {
    doc := TakeLines(text, [], 0);
  }

  // ---------- blank lines ----------

  ghost predicate LineStart(text: string, p: nat) {
    p <= |text| && (p == 0 || text[p - 1] == '\n')
  }

  /** The number of blank lines right before the line that starts at p. */
  function BlankLines(text: string, p: nat): nat
    requires p <= |text|
  {
    if p == 0 || text[p - 1] != '\n' || (p > 1 && text[p - 2] != '\n') then 0 else 1 + BlankLines(text, p - 1)
  }

  /** The tokenizer sees the start of a line exactly where one is and an even number of blank lines stands before it. */
  lemma {:induction false} LineIsSeenIff(old_: seq<Token>, text: string, p: nat)
    requires p <= |text| <= 2 * |old_|
    ensures Scan(old_, text, p).newLine <==> LineStart(text, p) && BlankLines(text, p) % 2 == 0
  {
    if p > 0 {
      LineIsSeenIff(old_, text, p - 1);
    }
  }
}
