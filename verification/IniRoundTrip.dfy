/** Looking names up in a loaded file, and the value that is copied out. */
module IniRoundTrip {
  import opened CStrings
  import opened IniConfig
  import opened IniLines

  /** What strncmp makes of a name in the file: a prefix of the wanted one will do, unless a NUL cuts the name off. */
  ghost predicate Answers(name: string, wanted: string) {
    if NulFree(name) then name <= wanted else CStr(name) == CStr(wanted)
  }

  /** A header "[" with nothing behind it names no group. */
  ghost predicate IsGroup(e: Entry) {
    e.line.Header? && e.line.body != ""
  }

  function Name(e: Entry): string {
    match e.line
    case Header(body) => if body == "" then "" else body[..|body| - 1]
    case Setting(name, _, _) => name
    case Comment(_) => ""
  }

  /** How a name in the document is compared with the wanted one. */
  datatype Test = PrefixOf(wanted: string) | Same(wanted: string) {
    ghost predicate Hits(name: string) {
      if PrefixOf? then Answers(name, wanted) else name == wanted
    }
  }

  ghost predicate FirstGroupBy(es: seq<Entry>, hit: Test, g: int) {
    && 0 <= g < |es| && IsGroup(es[g]) && hit.Hits(Name(es[g]))
    && forall i :: 0 <= i < g && IsGroup(es[i]) ==> !hit.Hits(Name(es[i]))
  }

  ghost predicate FirstOptionBy(es: seq<Entry>, g: int, hit: Test, k: int)
    requires 0 <= g < |es|
  {
    && g < k <= g + Settings(es, g + 1) && hit.Hits(Name(es[k]))
    && forall i :: g < i < k ==> !hit.Hits(Name(es[i]))
  }

  ghost predicate NoOptionBy(es: seq<Entry>, g: int, hit: Test)
    requires 0 <= g < |es|
  {
    forall i :: g < i <= g + Settings(es, g + 1) ==> !hit.Hits(Name(es[i]))
  }

  /** Searching the document with a test for group names and a test for option names. */
  ghost predicate DocFindsBy(es: seq<Entry>, hitGroup: Test, hitOption: Test, r: Found) {
    match r
    case NoGroup => forall i :: 0 <= i < |es| && IsGroup(es[i]) ==> !hitGroup.Hits(Name(es[i]))
    case NoOption =>
      exists g :: FirstGroupBy(es, hitGroup, g) && NoOptionBy(es, g, hitOption)
    case At(k) =>
      exists g :: FirstGroupBy(es, hitGroup, g) && FirstOptionBy(es, g, hitOption, k)
  }

  /** Against a header "[" the rest of the file is compared, from its line feed on; only a name with one could match that. */
  ghost predicate Askable(es: seq<Entry>, g: string) {
    g != "" && g[0] == '\n' ==> forall k :: 0 <= k < |es| && es[k].line.Header? ==> IsGroup(es[k])
  }

  /** The file is loaded, followed in the data array by whatever that held before. */
  ghost predicate Loaded(s: Store, doc: Document, old_: seq<Token>) {
    && DocOk(doc) && Text(doc) <= s.data && |s.data| == DATA_SIZE && |Text(doc)| <= 2 * |old_|
    && s.tokens == Scan(old_, Text(doc), |Text(doc)|).tokens
    && s.count == Scan(old_, Text(doc), |Text(doc)|).tokenIndex
  }

  /** The ended entries are the finished tokens; one that is not ended comes last. */
  ghost predicate Finished(es: seq<Entry>, count: nat) {
    count <= |es| <= count + 1 && forall k :: 0 <= k < |es| ==> (es[k].ended <==> k < count)
  }

  lemma LoadedIsScanned(s: Store, doc: Document, old_: seq<Token>)
    requires Loaded(s, doc, old_)
    ensures StoreOk(s) && TokensAre(s.tokens, Entries(doc)) && Finished(Entries(doc), s.count)
  {
    ScanIsSafeStore(old_, Text(doc), s.data);
    DocIsScanned(old_, doc);
    hide Text, Body, StoreOk, TokensAre;
  }

  /** Where an entry's line stands in the text. */
  lemma {:induction false} EntryText(lines: seq<Line>, n: nat, k: nat)
    requires (forall i :: 0 <= i < |lines| ==> LineOk(lines[i])) && n <= |lines| && k < |EntriesTo(lines, n)|
    ensures var e := EntriesTo(lines, n)[k]; LineOk(e.line) && HasLine(RenderTo(lines, n), e.pos, e.line)
  {
    hide RenderLine, LineOk, Body, HasLine;
    NextLine(lines, n - 1);
    if k < |EntriesTo(lines, n - 1)| {
      EntryText(lines, n - 1, k);
      var e := EntriesTo(lines, n - 1)[k];
      HasLineInPrefix(RenderTo(lines, n - 1), RenderTo(lines, n), e.pos, e.line);
    }
  }

  lemma EntryInText(doc: Document, k: nat)
    requires DocOk(doc) && k < |Entries(doc)|
    ensures var e := Entries(doc)[k];
            && LineOk(e.line) && HasBody(Text(doc), e.pos, e.line)
            && (if e.ended then HasLine(Text(doc), e.pos, e.line) else e.pos + |Body(e.line)| == |Text(doc)|)
  {
    if doc.last.Tail? {
      TailStands(doc);
    }
    var e, before := Entries(doc)[k], RenderTo(doc.lines, |doc.lines|);
    hide Body, LineOk, HasBody;
    if e.ended {
      EntryText(doc.lines, |doc.lines|, k);
      HasLineInPrefix(before, Text(doc), e.pos, e.line);
    }
  }

  lemma EntryInData(s: Store, doc: Document, old_: seq<Token>, k: nat)
    requires Loaded(s, doc, old_) && k < |Entries(doc)|
    ensures var e := Entries(doc)[k]; LineOk(e.line) && HasBody(s.data, e.pos, e.line) && (e.ended ==> HasLine(s.data, e.pos, e.line))
  {
    var e := Entries(doc)[k];
    EntryInText(doc, k);
    hide Body, LineOk, Entries, Text;
    HasBodyInPrefix(Text(doc), s.data, e.pos, e.line);
    if e.ended {
      HasLineInPrefix(Text(doc), s.data, e.pos, e.line);
    }
  }

  lemma HeaderParts(text: string, p: nat, body: string)
    requires HasBody(text, p, Header(body)) && body != ""
    ensures text[p + 1..p + |body|] == body[..|body| - 1]
  {
    var name, last := body[..|body| - 1], body[|body| - 1..];
    assert body == name + last;
    WindowSplit(text, p, p + |body| + 1, "[", body);
    WindowSplit(text, p + 1, p + |body| + 1, name, last);
  }

  lemma SettingParts(text: string, p: nat, l: Line)
    requires HasBody(text, p, l) && l.Setting?
    ensures text[p..p + |l.name|] == l.name
    ensures text[p + |l.name| + 1..] == l.value + text[p + |Body(l)|..]
  {
    var Setting(name, sign, value) := l;
    var b := name + [sign] + value;
    assert b[..|name|] == name && b[|name| + 1..] == value;
    assert text[p..p + |b|] == b;
    assert text[p..] == text[p..p + |b|] + text[p + |b|..];
    assert text[p..p + |name|] == b[..|name|];
    assert text[p + |name| + 1..] == b[|name| + 1..] + text[p + |b|..];
  }

  lemma NameTest(data: string, off: nat, name: string, wanted: string)
    requires off + |name| <= |data| && data[off..off + |name|] == name
    ensures StrNCmpEq(wanted, data, off, |name|) <==> Answers(name, wanted)
  {
    if NulFree(name) {
      StrNCmpIsPrefixTest(wanted, data, off, |name|);
    } else {
      StrNCmpStopsAtNul(wanted, data, off, |name|);
    }
  }

  lemma GroupTest(data: string, t: Token, e: Entry, g: string)
    requires |data| == DATA_SIZE && TokenIs(t, e) && HasBody(data, e.pos, e.line)
    requires e.line.Header? ==> HasLine(data, e.pos, e.line) && (IsGroup(e) || g == "" || g[0] != '\n')
    ensures GroupMatches(data, t, g) <==> IsGroup(e) && Answers(Name(e), g)
  {
    BodyLength(e.line);
    if e.line.Header? {
      hide Answers;
      if e.line.body != "" {
        HeaderParts(data, e.pos, e.line.body);
        NameTest(data, e.pos + 1, Name(e), g);
      } else {
        assert SizeT(t.end - t.start) > 0 && data[t.start] == '\n';
      }
    }
  }

  lemma OptionTest(data: string, t: Token, e: Entry, o: string)
    requires |data| == DATA_SIZE && TokenIs(t, e) && HasBody(data, e.pos, e.line) && e.line.Setting?
    ensures OptionMatches(data, t, o) <==> Answers(Name(e), o)
  {
    BodyLength(e.line);
    SettingParts(data, e.pos, e.line);
    hide Body, Answers;
    NameTest(data, e.pos, e.line.name, o);
  }

  lemma FirstGroupsAgree(s: Store, doc: Document, old_: seq<Token>, g: string)
    requires Loaded(s, doc, old_) && StoreOk(s) && Askable(Entries(doc), g)
    ensures forall f :: IsFirstGroup(s, g, f) <==> FirstGroupBy(Entries(doc), PrefixOf(g), f)
    ensures (forall i :: 0 <= i < s.count ==> !GroupMatches(s.data, s.tokens[i], g)) <==>
            (forall i :: 0 <= i < |Entries(doc)| && IsGroup(Entries(doc)[i]) ==> !PrefixOf(g).Hits(Name(Entries(doc)[i])))
  {
    var es := Entries(doc);
    LoadedIsScanned(s, doc, old_);
    hide Answers, Name, StoreOk, DocOk, Text, Scan, Entries, Body, LineOk, StrNCmpEq, GroupSizesAre, HasLine, HasBody;
    forall k | 0 <= k < |es|
      ensures GroupMatches(s.data, s.tokens[k], g) <==> IsGroup(es[k]) && PrefixOf(g).Hits(Name(es[k]))
      ensures IsGroup(es[k]) ==> k < s.count
    {
      EntryInData(s, doc, old_, k);
      GroupTest(s.data, s.tokens[k], es[k], g);
    }
  }

  lemma FirstOptionsAgree(s: Store, doc: Document, old_: seq<Token>, g: nat, o: string)
    requires Loaded(s, doc, old_) && StoreOk(s) && g < s.count <= |Entries(doc)|
    requires s.tokens[g].level == Group && Entries(doc)[g].line.Header?
    ensures forall k :: IsFirstOption(s, g, o, k) <==> FirstOptionBy(Entries(doc), g, PrefixOf(o), k)
    ensures NoOptionMatches(s, g, o) <==> NoOptionBy(Entries(doc), g, PrefixOf(o))
  {
    var es := Entries(doc);
    LoadedIsScanned(s, doc, old_);
    assert GroupSizeIs(s.tokens, es, g);
    forall k | g < k <= g + Settings(es, g + 1)
      ensures OptionMatches(s.data, s.tokens[k], o) <==> PrefixOf(o).Hits(Name(es[k]))
    {
      EntryInData(s, doc, old_, k);
      OptionTest(s.data, s.tokens[k], es[k], o);
    }
  }

  lemma MissingOptionAgrees(s: Store, doc: Document, old_: seq<Token>, g: string, o: string)
    requires Loaded(s, doc, old_) && StoreOk(s) && Askable(Entries(doc), g)
    ensures Finds(s, g, o, NoOption) <==> DocFindsBy(Entries(doc), PrefixOf(g), PrefixOf(o), NoOption)
  {
    var es := Entries(doc);
    LoadedIsScanned(s, doc, old_);
    FirstGroupsAgree(s, doc, old_, g);
    forall h | FirstGroupBy(es, PrefixOf(g), h)
      ensures s.tokens[h].level == Group
      ensures NoOptionMatches(s, h, o) <==> NoOptionBy(es, h, PrefixOf(o))
    {
      assert TokenIs(s.tokens[h], es[h]);
      FirstOptionsAgree(s, doc, old_, h, o);
    }
  }

  lemma FoundOptionAgrees(s: Store, doc: Document, old_: seq<Token>, g: string, o: string, k: nat)
    requires Loaded(s, doc, old_) && StoreOk(s) && Askable(Entries(doc), g)
    ensures Finds(s, g, o, At(k)) <==> DocFindsBy(Entries(doc), PrefixOf(g), PrefixOf(o), At(k))
  {
    var es := Entries(doc);
    LoadedIsScanned(s, doc, old_);
    FirstGroupsAgree(s, doc, old_, g);
    forall h | FirstGroupBy(es, PrefixOf(g), h)
      ensures s.tokens[h].level == Group
      ensures IsFirstOption(s, h, o, k) <==> FirstOptionBy(es, h, PrefixOf(o), k)
    {
      assert TokenIs(s.tokens[h], es[h]);
      FirstOptionsAgree(s, doc, old_, h, o);
    }
  }

  /** Whatever the file, the lookup is a search for the first name in it that answers to the wanted one. */
  lemma LookupIsPrefixSearch(s: Store, doc: Document, old_: seq<Token>, g: string, o: string, r: Found)
    requires Loaded(s, doc, old_) && Askable(Entries(doc), g)
    ensures StoreOk(s)
    ensures Finds(s, g, o, r) <==> DocFindsBy(Entries(doc), PrefixOf(g), PrefixOf(o), r)
  {
    LoadedIsScanned(s, doc, old_);
    match r
    case NoGroup => FirstGroupsAgree(s, doc, old_, g);
    case NoOption => MissingOptionAgrees(s, doc, old_, g, o);
    case At(k) => FoundOptionAgrees(s, doc, old_, g, o, k);
  }

  // ---------- the option that is there ----------

  /** A name that is not the wanted one answers in its place: a proper prefix, or the same text cut off by a NUL. */
  ghost predicate Shadows(name: string, wanted: string) {
    name != wanted && Answers(name, wanted)
  }

  /** No earlier group name answers in place of the group's, and no earlier option name in the group in place of the option's. */
  ghost predicate Unshadowed(es: seq<Entry>, h: int, k: int)
    requires 0 <= h < k < |es|
  {
    && (forall i :: 0 <= i < h && IsGroup(es[i]) ==> !Shadows(Name(es[i]), Name(es[h])))
    && (forall i :: h < i < k ==> !Shadows(Name(es[i]), Name(es[k])))
  }

  /** Whatever the file, the lookup finds the option that is really among its entries exactly when no earlier name shadows it. */
  lemma ExactIffUnshadowed(es: seq<Entry>, g: string, o: string, h: int, k: nat)
    requires FirstGroupBy(es, Same(g), h) && FirstOptionBy(es, h, Same(o), k)
    ensures DocFindsBy(es, PrefixOf(g), PrefixOf(o), At(k)) <==> Unshadowed(es, h, k)
  {
    hide Name, Settings;
    if Unshadowed(es, h, k) {
      assert FirstGroupBy(es, PrefixOf(g), h);
      assert FirstOptionBy(es, h, PrefixOf(o), k);
    }
    if DocFindsBy(es, PrefixOf(g), PrefixOf(o), At(k)) {
      var h' :| FirstGroupBy(es, PrefixOf(g), h') && FirstOptionBy(es, h', PrefixOf(o), k);
      assert h' <= h;
      if h' < h {
        assert false;
      }
      forall i | 0 <= i < h && IsGroup(es[i])
        ensures !Shadows(Name(es[i]), Name(es[h]))
      {
        assert !PrefixOf(g).Hits(Name(es[i]));
      }
      forall i | h < i < k
        ensures !Shadows(Name(es[i]), Name(es[k]))
      {
        assert !PrefixOf(o).Hits(Name(es[i]));
      }
    }
  }

  lemma FindsOnly(s: Store, g: string, o: string, k: nat)
    requires StoreOk(s) && Finds(s, g, o, At(k))
    ensures forall r :: Finds(s, g, o, r) <==> r == At(k)
  {
    hide Finds, StoreOk;
    forall r | Finds(s, g, o, r)
      ensures r == At(k)
    {
      FindsIsUnique(s, g, o, r, At(k));
    }
  }

  // ---------- the value ----------

  lemma {:induction false} CStrOfPrefix(b: string, m: nat)
    requires m <= |b|
    ensures CStr(b[..m]) == CStr(b)[..Min(m, |CStr(b)|)]
  {
    if m > 0 && b[0] != NUL {
      CStrOfPrefix(b[1..], m - 1);
      assert b[..m][1..] == b[1..][..m - 1];
    }
  }

  /** snprintf of size c from b, and the NUL behind it: the first c - 1 characters of b, as a C string. */
  lemma CopiedText(buf: string, c: nat, b: string)
    requires 1 <= c && c + 2 <= |buf|
    ensures CStr(Copied(buf, c, CStr(b))) == CStr(b[..Min(c - 1, |b|)])
  {
    hide CStr, Copied;
    var seen, m := CStr(b), Min(c - 1, |b|);
    var rest := CopiedParts(buf, c, seen);
    CStrOfPrefix(b, m);
    var text := seen[..Min(m, |seen|)];
    assert Min(m, |seen|) == Min(c - 1, |seen|);
    hide Min;
    CStrOfTerminated(text, rest);
  }

  lemma CopiedParts(buf: string, c: nat, text: string) returns (rest: string)
    requires 1 <= c && c + 2 <= |buf|
    ensures Copied(buf, c, text) == text[..Min(c - 1, |text|)] + rest && rest != "" && rest[0] == NUL
  {
    var k := Min(c - 1, |text|);
    rest := ([NUL] + buf[k + 1..])[c + 1 - k := NUL];
  }

  /** Of an ended option its value is copied, cut to what the size allows. */
  lemma ValueIsCopied(data: string, t: Token, e: Entry, buf: string, n: nat)
    requires |data| == DATA_SIZE && TokenIs(t, e) && EndIs(t, e) && HasLine(data, e.pos, e.line) && e.line.Setting? && e.ended
    requires 1 <= n && Min(|e.line.value| + 1, n) + 2 <= |buf|
    ensures 0 <= t.eqSignIdx < |data| && CopyLen(t, n) == Min(|e.line.value| + 1, n)
    ensures CStr(Copied(buf, CopyLen(t, n), CStr(data[t.eqSignIdx + 1..]))) == CStr(e.line.value[..Min(|e.line.value|, n - 1)])
  {
    var v := e.line.value;
    BodyLength(e.line);
    SettingParts(data, e.pos, e.line);
    var b, m := data[t.eqSignIdx + 1..], Min(|v|, n - 1);
    assert CopyLen(t, n) == m + 1 && Min(m, |b|) == m;
    assert b[..m] == v[..m];
    hide *;
    CopiedText(buf, m + 1, b);
  }

  /**
   * Of an option at the end of a file without a line feed, everything up to the next NUL in the data array is copied, whatever
   * stands there, and the second NUL lands two past the size the caller gave; without a name nothing is copied.
   */
  lemma OpenValueIsCopied(data: string, t: Token, e: Entry, buf: string, n: nat)
    requires |data| == DATA_SIZE && TokenIs(t, e) && EndIs(t, e) && HasBody(data, e.pos, e.line) && e.line.Setting? && !e.ended
    requires 1 <= n <= SIZE_T_RANGE - DATA_SIZE && n + 2 <= |buf|
    ensures 0 <= t.eqSignIdx < |data| && CopyLen(t, n) == if e.line.name == "" then 0 else n
    ensures var rest := e.line.value + data[e.pos + |Body(e.line)|..];
            var copied := Copied(buf, CopyLen(t, n), CStr(data[t.eqSignIdx + 1..]));
            if e.line.name == "" then copied == buf[1 := NUL]
            else CStr(copied) == CStr(rest[..Min(n - 1, |rest|)]) && copied[n + 1] == NUL
  {
    BodyLength(e.line);
    SettingParts(data, e.pos, e.line);
    hide CStr, Body;
    if e.line.name != "" {
      CopiedText(buf, n, data[t.eqSignIdx + 1..]);
    }
  }

  /** Any file, loaded and looked up: the lookup finds exactly option k, and copies out its value. */
  lemma RoundTrip(s: Store, doc: Document, old_: seq<Token>, g: string, o: string, h: int, k: nat, buf: string, n: nat)
    requires Loaded(s, doc, old_) && Askable(Entries(doc), g)
    requires FirstGroupBy(Entries(doc), Same(g), h) && FirstOptionBy(Entries(doc), h, Same(o), k)
    requires Unshadowed(Entries(doc), h, k) && Entries(doc)[k].ended
    requires 1 <= n && Min(|Entries(doc)[k].line.value| + 1, n) + 2 <= |buf|
    ensures StoreOk(s) && k < |s.tokens|
    ensures forall r :: Finds(s, g, o, r) <==> r == At(k)
    ensures 0 <= s.tokens[k].eqSignIdx < |s.data| && CopyLen(s.tokens[k], n) + 2 <= |buf|
    ensures var value := Entries(doc)[k].line.value;
            CStr(Copied(buf, CopyLen(s.tokens[k], n), CStr(s.data[s.tokens[k].eqSignIdx + 1..]))) ==
            CStr(value[..Min(|value|, n - 1)])
  {
    hide RenderLine, Finds, DocFindsBy, StoreOk, Copied, CStr, Entries, Text, DocOk, HasBody, Body, Scan;
    LookupIsPrefixSearch(s, doc, old_, g, o, At(k));
    ExactIffUnshadowed(Entries(doc), g, o, h, k);
    FindsOnly(s, g, o, k);
    LoadedIsScanned(s, doc, old_);
    EntryInData(s, doc, old_, k);
    ValueIsCopied(s.data, s.tokens[k], Entries(doc)[k], buf, n);
  }

  /** Load a file and look an option up, as a caller does: the buffer then holds its value. */
  method LoadAndLookUp(doc: Document, g: string, o: string, ghost h: int, ghost k: nat, buf: array<char>, size: nat)
      returns (status: int)
    requires DocOk(doc) && |Text(doc)| <= DATA_SIZE && Askable(Entries(doc), g)
    requires FirstGroupBy(Entries(doc), Same(g), h) && FirstOptionBy(Entries(doc), h, Same(o), k)
    requires Unshadowed(Entries(doc), h, k) && Entries(doc)[k].ended
    requires 1 <= size && Min(|Entries(doc)[k].line.value| + 1, size) + 2 <= buf.Length
    modifies buf
    ensures var value := Entries(doc)[k].line.value;
            status == 0 && CStr(buf[..]) == CStr(value[..Min(|value|, size - 1)])
  {
    hide RenderLine, Finds, StoreOk, Copied, CStr, Entries, Scan, Text;
    var cfg := new ConfigManager();
    ghost var old_ := cfg.tokens[..];
    var loaded := cfg.Init(File(Text(doc)));
    ghost var s := cfg.Contents();
    RoundTrip(s, doc, old_, g, o, h, k, buf[..], size);
    ghost var found: Found;
    status, found := cfg.GetString(g, o, buf, size);
  }
}
