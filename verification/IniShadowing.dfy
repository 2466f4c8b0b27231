/** What the lookup makes of names that are not there, and files it reads wrong. */
module IniShadowing {
  import opened IniConfig
  import opened IniLines
  import opened IniRoundTrip

  /** A group that is not there is reported missing exactly when no group's name answers in its place. */
  lemma AbsentGroupIff(s: Store, doc: Document, old_: seq<Token>, g: string, o: string)
    requires Loaded(s, doc, old_) && Askable(Entries(doc), g)
    requires forall i :: 0 <= i < |Entries(doc)| && IsGroup(Entries(doc)[i]) ==> Name(Entries(doc)[i]) != g
    ensures StoreOk(s)
    ensures Finds(s, g, o, NoGroup) <==>
            forall i :: 0 <= i < |Entries(doc)| && IsGroup(Entries(doc)[i]) ==> !Shadows(Name(Entries(doc)[i]), g)
  {
    var es := Entries(doc);
    LookupIsPrefixSearch(s, doc, old_, g, o, NoGroup);
    hide Loaded, Entries, Askable, Answers, Name, IsGroup, StoreOk, Finds;
    forall i | 0 <= i < |es| && IsGroup(es[i])
      ensures PrefixOf(g).Hits(Name(es[i])) <==> Shadows(Name(es[i]), g)
    {
    }
  }

  lemma FirstPrefixGroup(es: seq<Entry>, g: string, h: nat, from: nat) returns (q: nat)
    requires h < |es| && IsGroup(es[h]) && Name(es[h]) == g && from <= h
    requires forall i :: 0 <= i < from && IsGroup(es[i]) ==> !PrefixOf(g).Hits(Name(es[i]))
    ensures from <= q <= h && FirstGroupBy(es, PrefixOf(g), q)
    decreases h - from
  {
    if IsGroup(es[from]) && Answers(Name(es[from]), g) {
      q := from;
    } else {
      q := FirstPrefixGroup(es, g, h, from + 1);
    }
  }

  /**
   * An option that is not there, in a group that is: the lookup looks into group q, which is the wanted one exactly when no
   * earlier name answers in its place, and reports the option missing exactly when no name in q answers for it.
   */
  lemma AbsentOptionIff(s: Store, doc: Document, old_: seq<Token>, g: string, o: string, h: nat) returns (q: nat)
    requires Loaded(s, doc, old_) && Askable(Entries(doc), g)
    requires FirstGroupBy(Entries(doc), Same(g), h) && NoOptionBy(Entries(doc), h, Same(o))
    ensures StoreOk(s) && q <= h && IsFirstGroup(s, g, q)
    ensures q == h <==> forall i :: 0 <= i < h && IsGroup(Entries(doc)[i]) ==> !Shadows(Name(Entries(doc)[i]), g)
    ensures Finds(s, g, o, NoOption) <==>
            forall i :: q < i <= q + Settings(Entries(doc), q + 1) ==>
              if q == h then !Shadows(Name(Entries(doc)[i]), o) else !Answers(Name(Entries(doc)[i]), o)
  {
    LookupIsPrefixSearch(s, doc, old_, g, o, NoOption);
    FirstGroupsAgree(s, doc, old_, g);
    hide Loaded, Entries, Askable, Name, Answers, StoreOk, Finds, IsFirstGroup, Settings;
    q := SearchMisses(Entries(doc), g, o, h);
  }

  lemma SearchMisses(es: seq<Entry>, g: string, o: string, h: nat) returns (q: nat)
    requires FirstGroupBy(es, Same(g), h) && NoOptionBy(es, h, Same(o))
    ensures q <= h && FirstGroupBy(es, PrefixOf(g), q)
    ensures q == h <==> forall i :: 0 <= i < h && IsGroup(es[i]) ==> !Shadows(Name(es[i]), g)
    ensures DocFindsBy(es, PrefixOf(g), PrefixOf(o), NoOption) <==>
            forall i :: q < i <= q + Settings(es, q + 1) ==>
              if q == h then !Shadows(Name(es[i]), o) else !Answers(Name(es[i]), o)
  {
    q := FirstPrefixGroup(es, g, h, 0);
    FirstIsUnique(es, PrefixOf(g), q);
    hide Name, Settings, IsGroup, Answers;
    forall i | 0 <= i < h && IsGroup(es[i])
      ensures PrefixOf(g).Hits(Name(es[i])) <==> Shadows(Name(es[i]), g)
    {
      assert !Same(g).Hits(Name(es[i]));
    }
    GroupMisses(es, o, q);
    assert DocFindsBy(es, PrefixOf(g), PrefixOf(o), NoOption) <==> NoOptionBy(es, q, PrefixOf(o));
  }

  lemma GroupMisses(es: seq<Entry>, o: string, q: nat)
    requires q < |es|
    ensures NoOptionBy(es, q, PrefixOf(o)) <==> forall i :: q < i <= q + Settings(es, q + 1) ==> !Answers(Name(es[i]), o)
    ensures NoOptionBy(es, q, Same(o)) ==>
              (NoOptionBy(es, q, PrefixOf(o)) <==> forall i :: q < i <= q + Settings(es, q + 1) ==> !Shadows(Name(es[i]), o))
  {
    hide Name, Settings, Answers;
    forall i | 0 <= i < |es|
      ensures PrefixOf(o).Hits(Name(es[i])) <==> Answers(Name(es[i]), o)
      ensures Same(o).Hits(Name(es[i])) <==> Name(es[i]) == o
    {
    }
  }

  lemma FirstIsUnique(es: seq<Entry>, hit: Test, q: int)
    requires FirstGroupBy(es, hit, q)
    ensures forall q' :: FirstGroupBy(es, hit, q') <==> q' == q
  {
  }

  /** A line without '=' in the group that is looked into answers for every option: none is ever reported missing. */
  lemma NamelessAnswersAll(s: Store, doc: Document, old_: seq<Token>, g: string, o: string, q: nat, k: nat)
    requires Loaded(s, doc, old_) && Askable(Entries(doc), g) && FirstGroupBy(Entries(doc), PrefixOf(g), q)
    requires q < k <= q + Settings(Entries(doc), q + 1) && Name(Entries(doc)[k]) == ""
    ensures StoreOk(s) && !Finds(s, g, o, NoOption) && !Finds(s, g, o, NoGroup)
  {
    var es := Entries(doc);
    LookupIsPrefixSearch(s, doc, old_, g, o, NoOption);
    LookupIsPrefixSearch(s, doc, old_, g, o, NoGroup);
    FirstIsUnique(es, PrefixOf(g), q);
    assert PrefixOf(o).Hits(Name(es[k]));
    hide Loaded, Entries, StoreOk, Finds, Settings, Name, Answers;
    assert !NoOptionBy(es, q, PrefixOf(o));
  }

  // ---------- files that are read wrong ----------

  /** The text and the entries of n lines, one more than n - 1 lines have. */
  lemma OneMore(lines: seq<Line>, n: nat, before: string, es: seq<Entry>)
    requires 0 < n <= |lines| && RenderTo(lines, n - 1) == before && EntriesTo(lines, n - 1) == es && !lines[n - 1].Comment?
    ensures RenderTo(lines, n) == before + Body(lines[n - 1]) + "\n"
    ensures EntriesTo(lines, n) == es + [Entry(|before|, lines[n - 1], true)]
  {
    hide Body;
  }

  lemma Two(lines: seq<Line>, a: Line, b: Line) returns (es: seq<Entry>)
    requires |lines| >= 2 && lines[0] == a && lines[1] == b && !a.Comment? && !b.Comment?
    ensures RenderTo(lines, 2) == Body(a) + "\n" + Body(b) + "\n"
    ensures es == EntriesTo(lines, 2) && |es| == 2 && es[0].line == a && es[1].line == b
  {
    OneMore(lines, 1, "", []);
    assert "" + Body(a) + "\n" == Body(a) + "\n";
    hide RenderTo, EntriesTo, Body;
    OneMore(lines, 2, RenderTo(lines, 1), EntriesTo(lines, 1));
    es := EntriesTo(lines, 2);
  }

  lemma Four(lines: seq<Line>, a: Line, b: Line, c: Line, d: Line) returns (es: seq<Entry>)
    requires lines == [a, b, c, d] && !a.Comment? && !b.Comment? && !c.Comment? && !d.Comment?
    ensures RenderTo(lines, 4) == Body(a) + "\n" + Body(b) + "\n" + Body(c) + "\n" + Body(d) + "\n"
    ensures es == EntriesTo(lines, 4) && |es| == 4 && es[0].line == a && es[1].line == b && es[2].line == c && es[3].line == d
  {
    hide RenderTo, EntriesTo, Body;
    es := Two(lines, a, b);
    OneMore(lines, 3, RenderTo(lines, 2), es);
    OneMore(lines, 4, RenderTo(lines, 3), EntriesTo(lines, 3));
    es := EntriesTo(lines, 4);
  }

  lemma Bodies()
    ensures Body(Header("g]")) == "[g]" && Body(Header("a]")) == "[a]" && Body(Header("ab]")) == "[ab]"
    ensures Body(Setting("o", '=', "v")) == "o=v" && Body(Setting("\no", '=', "v")) == "\no=v" && Body(Setting("", '\n', "")) == "\n"
    ensures Body(Setting("o", '=', "1")) == "o=1" && Body(Setting("o", '=', "2")) == "o=2"
  {
  }

  function TwoGroups(): Document {
    Document([Header("a]"), Setting("o", '=', "1"), Header("ab]"), Setting("o", '=', "2")], NoTail)
  }

  lemma TwoGroupsIs(doc: Document) returns (es: seq<Entry>)
    requires doc == TwoGroups()
    ensures es == Entries(doc) && |es| == 4 && forall k :: 0 <= k < 4 ==> es[k].line == doc.lines[k]
    ensures Text(doc) == "[a]\no=1\n[ab]\no=2\n"
  {
    hide Body, RenderTo, EntriesTo;
    es := Four(doc.lines, doc.lines[0], doc.lines[1], doc.lines[2], doc.lines[3]);
    Bodies();
  }

  /** Asked for o in "ab", or in "ac" that is no group at all, the store answers with the option of group "a". */
  lemma ShadowedLookupIsWrong(s: Store, doc: Document, old_: seq<Token>)
    requires doc == TwoGroups() && Loaded(s, doc, old_)
    ensures Text(doc) == "[a]\no=1\n[ab]\no=2\n"
    ensures DocFindsBy(Entries(doc), Same("ab"), Same("o"), At(3))
    ensures DocFindsBy(Entries(doc), Same("ac"), Same("o"), NoGroup)
    ensures StoreOk(s) && forall r :: Finds(s, "ab", "o", r) || Finds(s, "ac", "o", r) <==> r == At(1)
  {
    var es := TwoGroupsIs(doc);
    NamesOf(es);
    hide Entries, Text, Loaded, StoreOk, Finds, Settings, IsGroup, Name, DocFindsBy;
    TwoGroupsSearch(es);
    FoundFirst(s, doc, old_, "ab");
    FoundFirst(s, doc, old_, "ac");
  }

  lemma FoundFirst(s: Store, doc: Document, old_: seq<Token>, g: string)
    requires Loaded(s, doc, old_) && Askable(Entries(doc), g) && DocFindsBy(Entries(doc), PrefixOf(g), PrefixOf("o"), At(1))
    ensures StoreOk(s) && forall r :: Finds(s, g, "o", r) <==> r == At(1)
  {
    LookupIsPrefixSearch(s, doc, old_, g, "o", At(1));
    FindsOnly(s, g, "o", 1);
  }

  lemma {:induction false} TwoGroupsSearch(es: seq<Entry>)
    requires |es| == 4 && forall k :: 0 <= k < 4 ==> es[k].line == TwoGroups().lines[k]
    ensures DocFindsBy(es, Same("ab"), Same("o"), At(3)) && DocFindsBy(es, Same("ac"), Same("o"), NoGroup)
    ensures DocFindsBy(es, PrefixOf("ab"), PrefixOf("o"), At(1)) && DocFindsBy(es, PrefixOf("ac"), PrefixOf("o"), At(1))
  {
    NamesOf(es);
    hide Settings, IsGroup, Name, Answers;
    assert FirstGroupBy(es, Same("ab"), 2) && FirstOptionBy(es, 2, Same("o"), 3);
    assert FirstGroupBy(es, PrefixOf("ab"), 0) && FirstGroupBy(es, PrefixOf("ac"), 0) && FirstOptionBy(es, 0, PrefixOf("o"), 1);
  }

  lemma {:induction false} NamesOf(es: seq<Entry>)
    requires |es| == 4 && forall k :: 0 <= k < 4 ==> es[k].line == TwoGroups().lines[k]
    ensures Settings(es, 1) == 1 && Settings(es, 3) == 1
    ensures IsGroup(es[0]) && Name(es[0]) == "a" && Name(es[1]) == "o" && IsGroup(es[2]) && Name(es[2]) == "ab" && Name(es[3]) == "o"
    ensures !IsGroup(es[1]) && !IsGroup(es[3])
    ensures Answers("a", "ab") && Answers("a", "ac") && Answers("o", "o")
  {
    assert Settings(es, 4) == 0 && Settings(es, 2) == 0;
  }

  /** A blank line hides the option behind it: o is set in "g" and reported missing. */
  lemma BlankLineHidesOption(s: Store, doc: Document, old_: seq<Token>)
    requires doc == Document([Header("g]"), Setting("\no", '=', "v")], NoTail) && Loaded(s, doc, old_)
    ensures Text(doc) == "[g]\n\no=v\n"
    ensures StoreOk(s) && Finds(s, "g", "o", NoOption)
  {
    var es := Entries(doc);
    hide Body, RenderTo, EntriesTo;
    var _ := Two(doc.lines, doc.lines[0], doc.lines[1]);
    Bodies();
    assert Settings(es, 2) == 0 && Settings(es, 1) == 1;
    assert Name(es[0]) == "g" && Name(es[1]) == "\no" && !("\no" <= "o");
    hide Entries, Text, Loaded;
    assert FirstGroupBy(es, PrefixOf("g"), 0) && NoOptionBy(es, 0, PrefixOf("o"));
    LookupIsPrefixSearch(s, doc, old_, "g", "o", NoOption);
  }

  /** A blank line at the end of a file answers for every option its group does not have. */
  lemma BlankLastLineAnswersAll(s: Store, doc: Document, old_: seq<Token>, o: string)
    requires doc == Document([Header("g]"), Setting("o", '=', "v")], Tail(Setting("", '\n', ""))) && Loaded(s, doc, old_)
    requires !("o" <= o)
    ensures Text(doc) == "[g]\no=v\n\n"
    ensures StoreOk(s) && Finds(s, "g", o, At(2))
  {
    var es := Entries(doc);
    hide Body, RenderTo, EntriesTo;
    var _ := Two(doc.lines, doc.lines[0], doc.lines[1]);
    Bodies();
    assert Settings(es, 3) == 0 && Settings(es, 2) == 1 && Settings(es, 1) == 2;
    assert Name(es[0]) == "g" && Name(es[1]) == "o" && Name(es[2]) == "";
    hide Entries, Text, Loaded;
    assert FirstGroupBy(es, PrefixOf("g"), 0) && FirstOptionBy(es, 0, PrefixOf(o), 2);
    LookupIsPrefixSearch(s, doc, old_, "g", o, At(2));
  }
}
