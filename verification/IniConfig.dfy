/** The INI configuration store: a tokenizer that reads the file in 16-byte chunks, and lookup by group and option. */
module IniConfig {
  import opened CStrings

  const DATA_SIZE := 2048
  const MAX_TOKENS := 1024
  const READ_CHUNK_SIZE := 16
  const SIZE_T_RANGE := 0x1_0000_0000_0000_0000

  const OK := 0
  const INIT_ERROR := -1
  const GROUP_NOT_FOUND := -2
  const OPTION_NOT_FOUND := -3

  datatype Level = Group | Option

  datatype Token = Token(start: int, eqSignIdx: int, end: int, size: int, level: Level)

  datatype FileRead = NoFile | File(text: string)

  /** What the tokenizer carries from one character to the next. */
  datatype Lexer = Lexer(newLine: bool, valueStarted: bool, commentLine: bool,
                         tokens: seq<Token>, tokenIndex: nat, groupIndex: nat)

  /** The tokenizer's local variables; the token array itself is updated in place. */
  datatype Locals = Locals(newLine: bool, valueStarted: bool, commentLine: bool, tokenIndex: nat, groupIndex: nat)

  ghost function View(l: Locals, tokens: seq<Token>): Lexer {
    Lexer(l.newLine, l.valueStarted, l.commentLine, tokens, l.tokenIndex, l.groupIndex)
  }

  ghost predicate Room(st: Lexer) {
    st.tokenIndex < |st.tokens| && st.groupIndex <= st.tokenIndex
  }

  ghost function Step(st: Lexer, c: char, pos: nat): Lexer
    requires Room(st)
  {
    var ti, gi := st.tokenIndex, st.groupIndex;
    var this_ := st.tokens[ti];
    if st.newLine && c == '#' then
      st.(commentLine := true, newLine := false)
    else if st.newLine && c == '[' then
      st.(groupIndex := ti, newLine := false,
          tokens := st.tokens[ti := this_.(start := pos + 1, end := pos + 1, size := 0, level := Group)])
    else if st.newLine then
      var counted := st.tokens[gi := st.tokens[gi].(size := st.tokens[gi].size + 1)];
      st.(newLine := false, tokens := counted[ti := Token(pos, pos, pos, 1, Option)])
    else if c == '=' && !st.valueStarted then
      st.(valueStarted := true, tokens := st.tokens[ti := this_.(eqSignIdx := pos)])
    else if c == '\n' && st.commentLine then
      st.(valueStarted := false, commentLine := false, newLine := true)
    else if c == '\n' then
      st.(valueStarted := false, newLine := true, tokenIndex := ti + 1,
          tokens := st.tokens[ti := this_.(end := if ti == gi then pos - 1 else pos)])
    else
      st
  }

  /** One pass over the first n characters of a file, over the token array left by an earlier load. */
  ghost function Scan(old_: seq<Token>, text: string, n: nat): (st: Lexer)
    requires n <= |text| <= 2 * |old_|
    ensures |st.tokens| == |old_|
    ensures 2 * st.tokenIndex + (if st.newLine then 0 else 1) <= n
    ensures st.groupIndex <= st.tokenIndex
  {
    if n == 0 then
      Lexer(true, false, false, old_, 0, 0)
    else
      Step(Scan(old_, text, n - 1), text[n - 1], n - 1)
  }

  /** The number of tokens that have been started: the finished ones and the option or group on the current line. */
  ghost function Started(st: Lexer): nat {
    if st.newLine || st.commentLine then st.tokenIndex else st.tokenIndex + 1
  }

  /** An option's name starts before its '=' and both lie in the text that was read. */
  ghost predicate SpanOk(t: Token, textLen: int) {
    0 <= t.start && (t.level == Option ==> t.start <= t.eqSignIdx < textLen) && t.start <= textLen
  }

  /** The options that group token g counts are the started tokens right after it, up to the next group or the last one. */
  ghost predicate OwnsNext(tokens: seq<Token>, g: int, started: int)
    requires 0 <= g < started <= |tokens|
  {
    && 0 <= tokens[g].size < started - g
    && (forall k :: g < k <= g + tokens[g].size ==> tokens[k].level == Option)
    && (g + tokens[g].size + 1 == started || tokens[g + tokens[g].size + 1].level == Group)
  }

  ghost predicate TokensOk(tokens: seq<Token>, started: int, textLen: int)
    requires 0 <= started <= |tokens|
  {
    && (forall k :: 0 <= k < started ==> SpanOk(tokens[k], textLen))
    && (forall g :: 0 <= g < started && tokens[g].level == Group ==> OwnsNext(tokens, g, started))
  }

  /** Between two characters every group is safe, and the last group has counted every option since it. */
  ghost predicate ScanInv(st: Lexer, textLen: nat) {
    && st.groupIndex <= st.tokenIndex && Started(st) <= |st.tokens|
    && (st.newLine ==> !st.commentLine)
    && TokensOk(st.tokens, Started(st), textLen)
    && (forall k :: st.groupIndex < k < Started(st) ==> st.tokens[k].level == Option)
    && (0 < st.groupIndex ==> st.groupIndex < Started(st) && st.tokens[st.groupIndex].level == Group)
  }

  /** Replacing token k by one with the same level and size, and still a good span, keeps every group's promise. */
  lemma SameShapeKeepsTokensOk(tokens: seq<Token>, k: int, t: Token, started: int, textLen: int)
    requires 0 <= k < |tokens| && 0 <= started <= |tokens| && TokensOk(tokens, started, textLen)
    requires k < started ==> t.level == tokens[k].level && t.size == tokens[k].size && SpanOk(t, textLen + 1)
    ensures TokensOk(tokens[k := t], started, textLen + 1)
  {
    var new_ := tokens[k := t];
    forall g | 0 <= g < started && new_[g].level == Group
      ensures OwnsNext(new_, g, started)
    {
      assert OwnsNext(tokens, g, started);
    }
  }

  lemma NewGroupKeepsTokensOk(tokens: seq<Token>, ti: int, t: Token, textLen: int)
    requires 0 <= ti < |tokens| && TokensOk(tokens, ti, textLen)
    requires t.level == Group && t.size == 0 && SpanOk(t, textLen + 1)
    ensures TokensOk(tokens[ti := t], ti + 1, textLen + 1)
  {
    var new_ := tokens[ti := t];
    forall g | 0 <= g < ti + 1 && new_[g].level == Group
      ensures OwnsNext(new_, g, ti + 1)
    {
      if g < ti {
        assert OwnsNext(tokens, g, ti);
      }
    }
  }

  lemma NewOptionKeepsTokensOk(tokens: seq<Token>, gi: int, ti: int, t: Token, textLen: int)
    requires 0 <= gi <= ti < |tokens| && TokensOk(tokens, ti, textLen)
    requires forall k :: gi < k < ti ==> tokens[k].level == Option
    requires 0 < gi ==> gi < ti && tokens[gi].level == Group
    requires t.level == Option && SpanOk(t, textLen + 1)
    ensures TokensOk(tokens[gi := tokens[gi].(size := tokens[gi].size + 1)][ti := t], ti + 1, textLen + 1)
  {
    var new_ := tokens[gi := tokens[gi].(size := tokens[gi].size + 1)][ti := t];
    forall g | 0 <= g < ti + 1 && new_[g].level == Group
      ensures OwnsNext(new_, g, ti + 1)
    {
      assert OwnsNext(tokens, g, ti);
    }
  }

  lemma StepKeepsTokensOk(st: Lexer, c: char, pos: nat)
    requires Room(st) && ScanInv(st, pos)
    ensures Started(Step(st, c, pos)) <= |st.tokens|
    ensures TokensOk(Step(st, c, pos).tokens, Started(Step(st, c, pos)), pos + 1)
  {
    var ti, gi := st.tokenIndex, st.groupIndex;
    var st' := Step(st, c, pos);
    hide OwnsNext;
    if st.newLine && c == '#' {
      SameShapeKeepsTokensOk(st.tokens, ti, st.tokens[ti], ti, pos);
    } else if st.newLine && c == '[' {
      NewGroupKeepsTokensOk(st.tokens, ti, st'.tokens[ti], pos);
    } else if st.newLine {
      NewOptionKeepsTokensOk(st.tokens, gi, ti, st'.tokens[ti], pos);
    } else {
      SameShapeKeepsTokensOk(st.tokens, ti, st'.tokens[ti], Started(st), pos);
    }
  }

  lemma StepKeepsInv(st: Lexer, c: char, pos: nat)
    requires Room(st) && ScanInv(st, pos)
    ensures ScanInv(Step(st, c, pos), pos + 1)
  {
    StepKeepsTokensOk(st, c, pos);
  }

  lemma {:induction false} ScanKeepsInv(old_: seq<Token>, text: string, n: nat)
    requires n <= |text| <= 2 * |old_|
    ensures ScanInv(Scan(old_, text, n), n)
  {
    if n > 0 {
      hide ScanInv, Step;
      ScanKeepsInv(old_, text, n - 1);
      StepKeepsInv(Scan(old_, text, n - 1), text[n - 1], n - 1);
    }
  }

  // ---------- lookup ----------

  /** A C int converted to size_t. */
  function SizeT(d: int): (n: nat)
    ensures 0 <= d < SIZE_T_RANGE ==> n == d
  {
    d % SIZE_T_RANGE
  }

  function Min(a: nat, b: nat): nat {
    if a < b then a else b
  }

  /** What a lookup reads: the file text, the token array and the number of finished tokens. */
  datatype Store = Store(data: string, tokens: seq<Token>, count: nat)

  predicate GroupMatches(data: string, t: Token, moduleName: string)
    requires t.level == Group ==> 0 <= t.start
  {
    t.level == Group && StrNCmpEq(moduleName, data, t.start, SizeT(t.end - t.start))
  }

  predicate OptionMatches(data: string, t: Token, optionName: string)
    requires 0 <= t.start
  {
    StrNCmpEq(optionName, data, t.start, SizeT(t.eqSignIdx - t.start))
  }

  datatype Found = NoGroup | NoOption | At(token: nat)

  /** Every finished group is safe to look into: its options are finished or started tokens of the array. */
  ghost predicate StoreOk(s: Store) {
    && s.count <= |s.tokens|
    && forall g :: 0 <= g < s.count && s.tokens[g].level == Group ==>
         && 0 <= s.tokens[g].start <= |s.data|
         && 0 <= s.tokens[g].size < |s.tokens| - g
         && forall k :: g < k <= g + s.tokens[g].size ==> 0 <= s.tokens[k].start <= s.tokens[k].eqSignIdx < |s.data|
  }

  /** found is the first of the finished tokens that is a group matching moduleName. */
  ghost predicate IsFirstGroup(s: Store, moduleName: string, found: int)
    requires StoreOk(s)
  {
    && 0 <= found < s.count
    && GroupMatches(s.data, s.tokens[found], moduleName)
    && forall i :: 0 <= i < found ==> !GroupMatches(s.data, s.tokens[i], moduleName)
  }

  /** found is the first option of group g that matches optionName. */
  ghost predicate IsFirstOption(s: Store, g: int, optionName: string, found: int)
    requires StoreOk(s) && 0 <= g < s.count && s.tokens[g].level == Group
  {
    && g < found <= g + s.tokens[g].size
    && OptionMatches(s.data, s.tokens[found], optionName)
    && forall i :: g < i < found ==> !OptionMatches(s.data, s.tokens[i], optionName)
  }

  ghost predicate NoOptionMatches(s: Store, g: int, optionName: string)
    requires StoreOk(s) && 0 <= g < s.count && s.tokens[g].level == Group
  {
    forall i :: g < i <= g + s.tokens[g].size ==> !OptionMatches(s.data, s.tokens[i], optionName)
  }

  /** What a lookup finds, without saying how it searches. */
  ghost predicate Finds(s: Store, moduleName: string, optionName: string, r: Found)
    requires StoreOk(s)
  {
    match r
    case NoGroup => forall i :: 0 <= i < s.count ==> !GroupMatches(s.data, s.tokens[i], moduleName)
    case NoOption =>
      exists g :: IsFirstGroup(s, moduleName, g) && NoOptionMatches(s, g, optionName)
    case At(k) =>
      exists g :: IsFirstGroup(s, moduleName, g) && IsFirstOption(s, g, optionName, k)
  }

  lemma FindsIsUnique(s: Store, moduleName: string, optionName: string, r: Found, r': Found)
    requires StoreOk(s) && Finds(s, moduleName, optionName, r) && Finds(s, moduleName, optionName, r')
    ensures r == r'
  {
    if !r.NoGroup? && !r'.NoGroup? {
      var g :| IsFirstGroup(s, moduleName, g)
               && (r.At? ==> IsFirstOption(s, g, optionName, r.token))
               && (r.NoOption? ==> NoOptionMatches(s, g, optionName));
      var g' :| IsFirstGroup(s, moduleName, g')
               && (r'.At? ==> IsFirstOption(s, g', optionName, r'.token))
               && (r'.NoOption? ==> NoOptionMatches(s, g', optionName));
      assert g == g';
    }
  }

  /** MIN(tok->end - tok->eq_sign_idx, option_value_size): the number of bytes handed to snprintf. */
  function CopyLen(t: Token, optionValueSize: nat): nat {
    Min(SizeT(t.end - t.eqSignIdx), optionValueSize)
  }

  ghost function Printed(buf: string, n: nat, text: string): (r: string)
    requires n <= |buf|
    ensures |r| == |buf|
  {
    if n == 0 then buf
    else var k := Min(n - 1, |text|); text[..k] + [NUL] + buf[k + 1..]
  }

  /** The caller's buffer after a lookup: the printed text, and one more NUL two past its last character. */
  ghost function Copied(buf: string, n: nat, text: string): (r: string)
    requires n + 2 <= |buf|
    ensures |r| == |buf|
  {
    Printed(buf, n, text)[n + 1 := NUL]
  }

  /** snprintf(buf, n, "%s", text): at most n - 1 characters and a NUL; nothing at all when n is 0. */
  method SnPrintf(buf: array<char>, n: nat, text: string)
    requires n <= buf.Length
    modifies buf
    ensures buf[..] == Printed(old(buf[..]), n, text)
  {
    if n > 0 {
      var k, i := Min(n - 1, |text|), 0;
      while i < k
        invariant 0 <= i <= k
        invariant forall j :: 0 <= j < i ==> buf[j] == text[j]
        invariant forall j :: i <= j < buf.Length ==> buf[j] == old(buf[j])
      {
        buf[i] := text[i];
        i := i + 1;
      }
      buf[k] := NUL;
    }
  }

  class ConfigManager {
    const data: array<char>
    const tokens: array<Token>
    var tokensCount: nat

    ghost predicate Shaped() {
      data.Length == DATA_SIZE && tokens.Length == MAX_TOKENS
    }

    ghost function Contents(): Store
      reads this, data, tokens
    {
      Store(data[..], tokens[..], tokensCount)
    }

    ghost predicate Valid()
      reads this, data, tokens
    {
      Shaped() && StoreOk(Contents())
    }

    /** The zero-initialised global. */
    constructor ()
      ensures Valid() && tokensCount == 0
      ensures fresh(data) && fresh(tokens)
    {
      data := new char[DATA_SIZE](_ => NUL);
      tokens := new Token[MAX_TOKENS](_ => Token(0, 0, 0, 0, Group));
      tokensCount := 0;
    }

    /** fread of at most READ_CHUNK_SIZE bytes at offset at, where the file has been read up to at. */
    method ReadChunk(text: string, at: nat) returns (n: nat)
      requires at <= |text| <= data.Length
      modifies data
      ensures n == Min(READ_CHUNK_SIZE, |text| - at)
      ensures forall j :: at <= j < at + n ==> data[j] == text[j]
      ensures forall j :: 0 <= j < at || at + n <= j < data.Length ==> data[j] == old(data[j])
    {
      n := Min(READ_CHUNK_SIZE, |text| - at);
      var i := 0;
      while i < n
        invariant 0 <= i <= n
        invariant forall j :: at <= j < at + i ==> data[j] == text[j]
        invariant forall j :: 0 <= j < at || at + i <= j < data.Length ==> data[j] == old(data[j])
      {
        data[at + i] := text[at + i];
        i := i + 1;
      }
    }

    /** The body of the inner loop: one character, at position pos of the file. */
    method ReadChar(c: char, pos: nat, lexer: Locals) returns (lexer': Locals)
      requires lexer.groupIndex <= lexer.tokenIndex == tokensCount < tokens.Length
      modifies tokens, `tokensCount
      ensures View(lexer', tokens[..]) == Step(old(View(lexer, tokens[..])), c, pos)
      ensures tokensCount == lexer'.tokenIndex
    {
      var Locals(newLine, valueStarted, commentLine, tokenIndex, groupIndex) := lexer;
      ghost var st := Step(View(lexer, tokens[..]), c, pos);
      if newLine && c == '#' {
        commentLine := true;
        newLine := false;
      } else if newLine {
        if c == '[' {
          groupIndex := tokenIndex;
          tokens[tokenIndex] := tokens[tokenIndex].(start := pos + 1, end := pos + 1, size := 0, level := Group);
          assert tokens[..] == st.tokens;
        } else {
          tokens[groupIndex] := tokens[groupIndex].(size := tokens[groupIndex].size + 1);
          tokens[tokenIndex] := Token(pos, pos, pos, 1, Option);
          assert tokens[..] == st.tokens;
        }
        newLine := false;
      } else if c == '=' && !valueStarted {
        valueStarted := true;
        tokens[tokenIndex] := tokens[tokenIndex].(eqSignIdx := pos);
        assert tokens[..] == st.tokens;
      } else if c == '\n' {
        valueStarted := false;
        if commentLine {
          commentLine := false;
        } else {
          tokens[tokenIndex] := tokens[tokenIndex].(end := if tokenIndex == groupIndex then pos - 1 else pos);
          assert tokens[..] == st.tokens;
          tokensCount := tokensCount + 1;
          tokenIndex := tokenIndex + 1;
        }
        newLine := true;
      }
      lexer' := Locals(newLine, valueStarted, commentLine, tokenIndex, groupIndex);
    }

    /** The inner loop: the characters of one chunk, already in the data array. */
    method ReadChars(text: string, from: nat, n: nat, lexer: Locals, ghost old_: seq<Token>) returns (lexer': Locals)
      requires Shaped() && from + n <= |text| <= DATA_SIZE && |old_| == MAX_TOKENS
      requires forall j :: from <= j < from + n ==> data[j] == text[j]
      requires View(lexer, tokens[..]) == Scan(old_, text, from) && tokensCount == lexer.tokenIndex
      modifies `tokensCount, tokens
      ensures View(lexer', tokens[..]) == Scan(old_, text, from + n) && tokensCount == lexer'.tokenIndex
    {
      hide Step;
      lexer' := lexer;
      var i := 0;
      while i < n
        invariant 0 <= i <= n
        invariant View(lexer', tokens[..]) == Scan(old_, text, from + i)
        invariant tokensCount == lexer'.tokenIndex
      {
        lexer' := ReadChar(data[from + i], from + i, lexer');
        i := i + 1;
      }
    }

    /** The chunked read loop: whatever the chunk boundaries, the result is that of one pass. */
    method ReadAll(text: string)
      requires Shaped() && |text| <= DATA_SIZE && tokensCount == 0
      modifies `tokensCount, data, tokens
      ensures forall j :: 0 <= j < |text| ==> data[j] == text[j]
      ensures forall j :: |text| <= j < data.Length ==> data[j] == old(data[j])
      ensures tokens[..] == Scan(old(tokens[..]), text, |text|).tokens
      ensures tokensCount == Scan(old(tokens[..]), text, |text|).tokenIndex
    {
      var lexer := Locals(true, false, false, 0, 0);
      var bytesRead, totalBytesRead := READ_CHUNK_SIZE, 0;
      ghost var old_ := tokens[..];
      while bytesRead == READ_CHUNK_SIZE
        invariant 0 <= totalBytesRead <= |text| && 0 <= bytesRead <= READ_CHUNK_SIZE
        invariant bytesRead < READ_CHUNK_SIZE ==> totalBytesRead == |text|
        invariant forall j :: 0 <= j < totalBytesRead ==> data[j] == text[j]
        invariant forall j :: totalBytesRead <= j < data.Length ==> data[j] == old(data[j])
        invariant View(lexer, tokens[..]) == Scan(old_, text, totalBytesRead)
        invariant tokensCount == lexer.tokenIndex
        decreases |text| - totalBytesRead + bytesRead
      {
        bytesRead := ReadChunk(text, totalBytesRead);
        lexer := ReadChars(text, totalBytesRead, bytesRead, lexer, old_);
        totalBytesRead := totalBytesRead + bytesRead;
      }
    }

    /** Loading never leaves the two arrays, and afterwards lookups are safe whatever the file held. */
    method Init(file: FileRead) returns (status: int)
      requires Valid()
      requires file.File? ==> |file.text| <= DATA_SIZE
      modifies this, data, tokens
      ensures Valid()
      ensures file.NoFile? ==> status == -1 && Contents() == old(Contents())
      ensures file.File? ==>
                && status == 0
                && data[..] == file.text + old(data[..])[|file.text|..]
                && tokens[..] == Scan(old(tokens[..]), file.text, |file.text|).tokens
                && tokensCount == Scan(old(tokens[..]), file.text, |file.text|).tokenIndex
    {
      if file.NoFile? {
        return INIT_ERROR;
      }
      tokensCount := 0;
      ReadAll(file.text);
      ScanIsSafeStore(old(tokens[..]), file.text, data[..]);
      status := OK;
    }

    /** The first loop of a lookup: the first group among the finished tokens that matches, or -1. */
    method FindGroup(moduleName: string) returns (foundModule: int)
      requires Valid()
      ensures foundModule == -1 ==> forall i :: 0 <= i < tokensCount ==> !GroupMatches(data[..], tokens[i], moduleName)
      ensures foundModule != -1 ==> IsFirstGroup(Contents(), moduleName, foundModule)
    {
      ghost var store := Contents();
      var i := 0;
      while i < tokensCount
        invariant 0 <= i <= tokensCount
        invariant forall j :: 0 <= j < i ==> !GroupMatches(store.data, store.tokens[j], moduleName)
      {
        if tokens[i].level == Group && StrNCmpEq(moduleName, data[..], tokens[i].start, SizeT(tokens[i].end - tokens[i].start)) {
          return i;
        }
        i := i + 1;
      }
      foundModule := -1;
    }

    /** The second loop: the first option of the group that matches, or -1. */
    method FindOption(foundModule: nat, optionName: string) returns (foundConfig: int)
      requires Valid() && foundModule < tokensCount && tokens[foundModule].level == Group
      ensures foundConfig == -1 ==> NoOptionMatches(Contents(), foundModule, optionName)
      ensures foundConfig != -1 ==> IsFirstOption(Contents(), foundModule, optionName, foundConfig)
    {
      ghost var store := Contents();
      var i := 0;
      while i < tokens[foundModule].size
        invariant 0 <= i <= tokens[foundModule].size
        invariant forall j :: foundModule < j <= foundModule + i ==> !OptionMatches(store.data, store.tokens[j], optionName)
      {
        var idx := foundModule + 1 + i;
        if StrNCmpEq(optionName, data[..], tokens[idx].start, SizeT(tokens[idx].eqSignIdx - tokens[idx].start)) {
          return idx;
        }
        i := i + 1;
      }
      foundConfig := -1;
    }

    /** Reads an option into the caller's buffer; the write at copy_len + 1 is part of what the buffer must hold. */
    method GetString(moduleName: string, optionName: string, optionValue: array<char>, optionValueSize: nat)
        returns (status: int, ghost found: Found)
      requires Valid() && optionValue != data
      requires forall k: nat {:trigger At(k)} :: k < MAX_TOKENS && Finds(Contents(), moduleName, optionName, At(k)) ==>
                 CopyLen(tokens[k], optionValueSize) + 2 <= optionValue.Length
      modifies optionValue
      ensures Finds(old(Contents()), moduleName, optionName, found)
      ensures found.NoGroup? ==> status == -2 && optionValue[..] == old(optionValue[..])
      ensures found.NoOption? ==> status == -3 && optionValue[..] == old(optionValue[..])
      ensures found.At? ==>
                && status == 0
                && found.token < MAX_TOKENS && 0 <= old(tokens[found.token].eqSignIdx) < DATA_SIZE
                && CopyLen(old(tokens[found.token]), optionValueSize) + 2 <= optionValue.Length
                && optionValue[..] == Copied(old(optionValue[..]), CopyLen(old(tokens[found.token]), optionValueSize),
                                             CStr(old(data[..])[old(tokens[found.token].eqSignIdx) + 1..]))
    {
      hide CStr, Printed, StrNCmpEq;
      var foundModule := FindGroup(moduleName);
      if foundModule == -1 {
        return GROUP_NOT_FOUND, NoGroup;
      }
      var foundConfig := FindOption(foundModule, optionName);
      if foundConfig == -1 {
        return OPTION_NOT_FOUND, NoOption;
      }
      found := At(foundConfig);
      assert Finds(Contents(), moduleName, optionName, found);
      var tok := tokens[foundConfig];
      var copyLen := CopyLen(tok, optionValueSize);
      SnPrintf(optionValue, copyLen, CStr(data[..][tok.eqSignIdx + 1..]));
      optionValue[copyLen + 1] := NUL;
      status := OK;
    }
  }

  /** What the tokenizer leaves behind is always safe to look into, also for files cut off in the middle of a line. */
  lemma ScanIsSafeStore(old_: seq<Token>, text: string, data: string)
    requires |text| <= 2 * |old_| && |text| <= |data|
    ensures StoreOk(Store(data, Scan(old_, text, |text|).tokens, Scan(old_, text, |text|).tokenIndex))
  {
    ScanKeepsInv(old_, text, |text|);
    hide StoreOk, ScanInv;
    InvIsSafe(data, Scan(old_, text, |text|), |text|);
  }

  lemma InvIsSafe(data: string, st: Lexer, textLen: nat)
    requires textLen <= |data| && ScanInv(st, textLen)
    ensures StoreOk(Store(data, st.tokens, st.tokenIndex))
  {
    hide StoreOk, TokensOk;
    TokensAreSafe(data, st.tokens, st.tokenIndex, Started(st), textLen);
  }

  lemma TokensAreSafe(data: string, tokens: seq<Token>, count: nat, started: int, textLen: nat)
    requires count <= started <= |tokens| && textLen <= |data| && TokensOk(tokens, started, textLen)
    ensures StoreOk(Store(data, tokens, count))
  {
    hide TokensOk;
    forall g | 0 <= g < count && tokens[g].level == Group
      ensures 0 <= tokens[g].start <= |data| && 0 <= tokens[g].size < |tokens| - g
      ensures forall k :: g < k <= g + tokens[g].size ==> 0 <= tokens[k].start <= tokens[k].eqSignIdx < |data|
    {
      GroupIsSafe(tokens, started, textLen, g);
    }
  }

  lemma GroupIsSafe(tokens: seq<Token>, started: int, textLen: int, g: int)
    requires 0 <= g < started <= |tokens| && TokensOk(tokens, started, textLen) && tokens[g].level == Group
    ensures 0 <= tokens[g].start <= textLen && 0 <= tokens[g].size < |tokens| - g
    ensures forall k :: g < k <= g + tokens[g].size ==> 0 <= tokens[k].start <= tokens[k].eqSignIdx < textLen
  {
    assert SpanOk(tokens[g], textLen) && OwnsNext(tokens, g, started);
    forall k | g < k <= g + tokens[g].size
      ensures 0 <= tokens[k].start <= tokens[k].eqSignIdx < textLen
    {
      assert SpanOk(tokens[k], textLen);
    }
  }
}
