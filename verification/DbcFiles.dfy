/** Whole DBC files in canonical form, and the proof that the parser reads them back. */
module DbcFiles {
  import opened CanTypes
  import opened PhysicalRange
  import opened DbcText
  import opened DbcParser
  import opened DbcPrinter

  // ----- The printer

  /** Words, each followed by a space. */
  function WordsTo(words: seq<string>, rest: string): string {
    if words == [] then rest else words[0] + (" " + WordsTo(words[1..], rest))
  }

  function MessagesTo(messages: seq<MessageText>, rest: string): string
    requires forall m | m in messages :: PrintableMessage(m)
  {
    if messages == [] then rest else MessageTo(messages[0], MessagesTo(messages[1..], rest))
  }

  /** Sections that the parser skips, given by what stands between the keyword and the semicolon. */
  function SkippedTo(keyword: string, bodies: seq<string>, rest: string): string {
    if bodies == [] then rest else keyword + (" " + (bodies[0] + (";" + SkippedTo(keyword, bodies[1..], rest))))
  }

  /** A file in the order of its sections; of environment data, signal groups and value types there is at most one. */
  datatype FileText = FileText(
    version: string, symbols: seq<string>, nodes: seq<string>, tables: seq<string>, messages: seq<MessageText>,
    transmitters: seq<string>, variables: seq<string>, variableData: seq<string>, signalTypes: seq<string>,
    comments: seq<CommentText>, definitions: seq<string>, defaults: seq<string>, attributes: seq<string>,
    lateComments: seq<CommentText>, values: seq<ValuesText>, groups: seq<string>, valueTypes: seq<string>)

  predicate AreBodies(bodies: seq<string>) {
    forall b | b in bodies :: ';' !in b
  }

  predicate PrintableParts(f: FileText) {
    && '"' !in f.version
    && (forall w | w in f.symbols :: IsWord(w))
    && (forall w | w in f.nodes :: IsWord(w) && w !in SYMBOLS)
    && (forall m | m in f.messages :: PrintableMessage(m))
    && (forall c | c in f.comments + f.lateComments :: PrintableComment(c))
    && (forall v | v in f.values :: PrintableValues(v))
    && AreBodies(f.tables) && AreBodies(f.transmitters) && AreBodies(f.variables) && AreBodies(f.variableData)
    && AreBodies(f.signalTypes) && AreBodies(f.definitions) && AreBodies(f.defaults) && AreBodies(f.attributes)
    && AreBodies(f.groups) && AreBodies(f.valueTypes)
    && |f.variableData| <= 1 && |f.groups| <= 1 && |f.valueTypes| <= 1
    && (f.lateComments != [] ==> f.definitions != [] || f.defaults != [] || f.attributes != [])
  }

  function TailTo(f: FileText): string {
    SkippedTo("SIG_GROUP_", f.groups, SkippedTo("SIG_VALTYPE_", f.valueTypes, ""))
  }

  function LateTo(f: FileText): string {
    CommentsTo(f.lateComments, AllValuesTo(f.values, TailTo(f)))
  }

  function AttributesTo(f: FileText): string {
    SkippedTo("BA_DEF_", f.definitions, SkippedTo("BA_DEF_DEF_", f.defaults, SkippedTo("BA_", f.attributes, LateTo(f))))
  }

  function CommentsAndMore(f: FileText): string {
    CommentsTo(f.comments, AttributesTo(f))
  }

  function BackTo(f: FileText): string {
    SkippedTo("BO_TX_BU_", f.transmitters, SkippedTo("EV_", f.variables,
      SkippedTo("ENVVAR_DATA_", f.variableData, SkippedTo("SGTYPE_", f.signalTypes, CommentsAndMore(f)))))
  }

  /** Everything behind the nodes. */
  function BodyTo(f: FileText): string
    requires PrintableParts(f)
  {
    SkippedTo("VAL_TABLE_", f.tables, MessagesTo(f.messages, BackTo(f)))
  }

  /** The list of nodes ends only at a section keyword, and EV_ is not in the parser's set of those. */
  predicate EndsNodes(body: string) {
    body != "" && !("EV_" <= body)
  }

  function FileString(f: FileText): string
    requires PrintableParts(f)
  {
    "VERSION" + (" " + ("\"" + (f.version + ("\"" + (" " + ("NS_" + (" " + (":" + (" "
    + WordsTo(f.symbols, "BS_" + (":" + (" " + ("BU_:" + (" " + WordsTo(f.nodes, BodyTo(f))))))))))))))))
  }

  function DescribedMessages(messages: seq<MessageText>): seq<Message>
    requires forall m | m in messages :: PrintableMessage(m)
  {
    if messages == [] then [] else [DescribedMessage(messages[0])] + DescribedMessages(messages[1..])
  }

  // ----- What may stand where

  /** The keywords in the order of the file. */
  const KEYWORDS: seq<string> := [
    "VAL_TABLE_", "BO_", "BO_TX_BU_", "EV_", "ENVVAR_DATA_", "SGTYPE_", "CM_", "BA_DEF_", "BA_DEF_DEF_", "BA_", "CM_",
    "VAL_", "SIG_GROUP_", "SIG_VALTYPE_"]

  /** A trimmed text that is empty or starts with one of the keywords from number n. */
  predicate From(s: string, n: nat) {
    EraseSpaces(s) == s && (s == "" || exists i :: n <= i < |KEYWORDS| && KEYWORDS[i] + " " <= s)
  }

  /** Behind position p a text that starts with b and a space cannot start with a. */
  predicate Apart(a: string, b: string, p: nat)
    requires p <= |a| && p <= |b|
    decreases |a| - p
  {
    p < |a| && if p == |b| then a[p] != ' ' else a[p] != b[p] || Apart(a, b, p + 1)
  }

  predicate ApartFrom(keyword: string, n: nat) {
    forall i | n <= i < |KEYWORDS| :: Apart(keyword, KEYWORDS[i], 0)
  }

  lemma {:induction false} ApartMeans(a: string, b: string, p: nat, s: string)
    requires p <= |a| && p <= |b| && Apart(a, b, p) && b + " " <= s
    ensures !(a <= s)
    decreases |a| - p
  {
    if a <= s {
      assert a[p] == s[p] == (b + " ")[p];
      ApartMeans(a, b, p + 1, s);
    }
  }

  lemma NotAhead(keyword: string, s: string, n: nat)
    requires keyword != "" && From(s, n) && ApartFrom(keyword, n)
    ensures !(keyword <= EraseSpaces(s))
  {
    hide EraseSpaces, Apart, KEYWORDS;
    if s != "" {
      var i :| n <= i < |KEYWORDS| && KEYWORDS[i] + " " <= s;
      ApartMeans(keyword, KEYWORDS[i], 0, s);
    }
  }

  lemma MessageKeywordsApart()
    ensures ApartFrom("VAL_TABLE_", 1) && ApartFrom(",", 1) && ApartFrom("SG_", 1) && ApartFrom("BO_", 3)
  {
  }

  lemma SkippedKeywordsApart()
    ensures ApartFrom("BO_TX_BU_", 3) && ApartFrom("EV_", 4) && ApartFrom("ENVVAR_DATA_", 5) && ApartFrom("SGTYPE_", 6)
  {
  }

  lemma LateKeywordsApart()
    ensures ApartFrom("BA_DEF_", 9) && ApartFrom("BA_DEF_DEF_", 9) && ApartFrom("BA_", 10)
    ensures ApartFrom("CM_", 11) && ApartFrom("VAL_", 12) && ApartFrom("SIG_GROUP_", 13)
  {
  }

  lemma KeywordsAreWords()
    ensures forall i | 0 <= i < |KEYWORDS| :: IsWord(KEYWORDS[i]) && (KEYWORDS[i] in SYMBOLS || KEYWORDS[i] == "EV_")
  {
  }

  // ----- Skipped sections

  lemma SkippedStarts(n: nat, bodies: seq<string>, rest: string)
    requires n < |KEYWORDS| && IsWord(KEYWORDS[n]) && From(rest, n)
    ensures From(SkippedTo(KEYWORDS[n], bodies, rest), n)
  {
    hide EraseSpaces, KEYWORDS, IsWord;
    if bodies != [] {
      var k := KEYWORDS[n];
      var tail := bodies[0] + (";" + SkippedTo(k, bodies[1..], rest));
      WordFirst(k);
      NoSpace(k, " " + tail);
      assert (k + (" " + tail))[..|k| + 1] == k + " ";
      assert KEYWORDS[n] + " " <= SkippedTo(k, bodies, rest);
    }
  }

  /** A section whose keyword starts with the one looked for is skipped up to its semicolon. */
  lemma SectionIsSkipped(st: St, sought: string, keyword: string, body: string, rest: string)
    requires sought != "" && sought <= keyword && IsWord(keyword) && ';' !in body
    requires st.valid && st.file == keyword + (" " + (body + (";" + rest)))
    ensures Section(st, sought) == (St(rest, true, true), true)
  {
    hide EraseSpaces, IndexOf, IsWord, Section;
    var front := keyword + (" " + body);
    assert st.file == front + (";" + rest);
    WordFirst(keyword);
    NoSpace(keyword, " " + (body + (";" + rest)));
    FirstSemicolon(keyword, body, rest);
    KeywordStarts(keyword, sought, " " + (body + (";" + rest)));
    SemicolonIsReached(st, sought, front, rest);
  }

  lemma KeywordStarts(keyword: string, sought: string, rest: string)
    requires sought <= keyword
    ensures sought <= keyword + rest
  {
  }

  lemma SemicolonIsReached(st: St, sought: string, front: string, rest: string)
    requires sought != "" && st.valid && st.file == front + (";" + rest) && EraseSpaces(st.file) == st.file
    requires sought <= st.file && IndexOf(st.file, ";") == |front|
    ensures Section(st, sought) == (St(rest, true, true), true)
  {
    hide EraseSpaces, IndexOf;
    assert (front + (";" + rest))[|front| + 1..] == rest;
  }

  lemma FirstSemicolon(keyword: string, body: string, rest: string)
    requires IsWord(keyword) && ';' !in body
    ensures IndexOf(keyword + (" " + body) + (";" + rest), ";") == |keyword + (" " + body)|
  {
    hide IndexOf;
    var front := keyword + (" " + body);
    forall i | 0 <= i < |front|
      ensures front[i] !in ";"
    {
      assert i < |keyword| ==> IsWordChar(keyword[i]);
    }
    IndexOfAt(front, ";" + rest, ";");
  }

  /** All sections of a row are skipped. */
  lemma {:induction false} RowIsSkipped(a: St, b: St, sought: string, keyword: string, bodies: seq<string>)
    requires sought != "" && sought <= keyword && IsWord(keyword) && AreBodies(bodies)
    requires a.valid && b.valid && a.file == SkippedTo(keyword, bodies, b.file)
    ensures Sections(a, sought) == Sections(b, sought)
    decreases |bodies|
  {
    hide EraseSpaces, Section, IsWord, IsSuffix;
    if bodies == [] {
      SectionIgnoresParsed(a, b, sought);
    } else {
      var more := SkippedTo(keyword, bodies[1..], b.file);
      SectionIsSkipped(a, sought, keyword, bodies[0], more);
      RowIsSkipped(St(more, true, true), b, sought, keyword, bodies[1..]);
    }
  }

  lemma SectionIgnoresParsed(a: St, b: St, sought: string)
    requires sought != "" && a.file == b.file && a.valid == b.valid
    ensures Section(a, sought) == Section(b, sought) && Sections(a, sought) == Sections(b, sought)
  {
    hide EraseSpaces, IndexOf;
  }

  lemma NoSection(st: St, sought: string, n: nat)
    requires sought != "" && st.valid && From(st.file, n) && ApartFrom(sought, n)
    ensures Section(st, sought) == (St(st.file, true, false), false)
    ensures Sections(st, sought) == Some(St(st.file, true, false))
  {
    hide EraseSpaces, ApartFrom;
    NotAhead(sought, st.file, n);
  }

  /** A row of sections of one kind in front of later ones. */
  lemma RowReads(st: St, n: nat, bodies: seq<string>, rest: string)
    requires n < |KEYWORDS| && IsWord(KEYWORDS[n]) && AreBodies(bodies) && From(rest, n + 1)
             && ApartFrom(KEYWORDS[n], n + 1)
    requires st.valid && st.file == SkippedTo(KEYWORDS[n], bodies, rest)
    ensures Sections(st, KEYWORDS[n]) == Some(St(rest, true, false)) && From(st.file, n)
  {
    hide EraseSpaces, KEYWORDS, IsWord, ApartFrom, Sections, AreBodies, SkippedTo;
    WordFirst(KEYWORDS[n]);
    RowIsSkipped(st, St(rest, true, false), KEYWORDS[n], KEYWORDS[n], bodies);
    NoSection(St(rest, true, false), KEYWORDS[n], n + 1);
    SkippedStarts(n, bodies, rest);
  }

  /** At most one section of a kind in front of later ones. */
  lemma OneReads(st: St, n: nat, bodies: seq<string>, rest: string)
    requires n < |KEYWORDS| && IsWord(KEYWORDS[n]) && AreBodies(bodies) && |bodies| <= 1 && From(rest, n + 1)
    requires ApartFrom(KEYWORDS[n], n + 1) && st.valid && st.file == SkippedTo(KEYWORDS[n], bodies, rest)
    ensures Section(st, KEYWORDS[n]).0.file == rest && Section(st, KEYWORDS[n]).0.valid && From(st.file, n)
  {
    hide EraseSpaces, KEYWORDS, IsWord, ApartFrom, Section;
    WordFirst(KEYWORDS[n]);
    SkippedStarts(n, bodies, rest);
    if bodies == [] {
      NoSection(st, KEYWORDS[n], n + 1);
    } else {
      assert SkippedTo(KEYWORDS[n], bodies[1..], rest) == rest;
      SectionIsSkipped(st, KEYWORDS[n], KEYWORDS[n], bodies[0], rest);
    }
  }

  // ----- The parts behind the nodes

  lemma {:induction false} CommentsStart(comments: seq<CommentText>, rest: string, n: nat)
    requires From(rest, n) && (n <= 6 || n == 10)
    ensures From(CommentsTo(comments, rest), n)
  {
    hide EraseSpaces, CommentTo;
    if comments != [] {
      CommentStarts(comments[0], CommentsTo(comments[1..], rest));
      assert KEYWORDS[6] == "CM_" && KEYWORDS[10] == "CM_";
    }
  }

  lemma ValuesStartText(values: seq<ValuesText>, rest: string)
    requires From(rest, 12)
    ensures From(AllValuesTo(values, rest), 11)
  {
    hide EraseSpaces, ValuesTo;
    if values != [] {
      ValuesStart(values[0], AllValuesTo(values[1..], rest));
      assert KEYWORDS[11] == "VAL_";
    }
  }

  lemma MessageStarts(m: MessageText, rest: string)
    requires PrintableMessage(m)
    ensures EraseSpaces(MessageTo(m, rest)) == MessageTo(m, rest) && "BO_ " <= MessageTo(m, rest)
  {
    hide EraseSpaces, Printable, IsWord, SignalsTo, Decimal;
    var tail := Decimal(m.id) + (" " + (m.name + (":" + (" " + (Decimal(m.size) + (" " + (m.transmitter + (" "
                + SignalsTo(m.signals, rest)))))))));
    NoSpace("BO_", " " + tail);
    assert MessageTo(m, rest) == "BO_" + (" " + tail);
    assert ("BO_" + (" " + tail))[..4] == "BO_ ";
  }

  lemma MessagesStart(messages: seq<MessageText>, rest: string)
    requires From(rest, 2) && forall m | m in messages :: PrintableMessage(m)
    ensures From(MessagesTo(messages, rest), 1)
  {
    hide EraseSpaces, MessageTo, PrintableMessage;
    if messages != [] {
      MessageStarts(messages[0], MessagesTo(messages[1..], rest));
      assert KEYWORDS[1] == "BO_";
    }
  }

  lemma {:induction false} MessagesRead(st: St, messages: seq<MessageText>, rest: string)
    requires forall m | m in messages :: PrintableMessage(m)
    requires From(rest, 2) && st.file == MessagesTo(messages, rest) && st.valid
    ensures Messages(st) == Some((St(rest, true, false), DescribedMessages(messages)))
    decreases |messages|
  {
    hide EraseSpaces, MessageOf, MessageTo, PrintableMessage, DescribedMessage, IsSuffix, From, ApartFrom;
    if messages == [] {
      NoMessage(st);
    } else {
      var more := MessagesTo(messages[1..], rest);
      MessagesStart(messages[1..], rest);
      MessageEnds(more);
      MessageStarts(messages[0], more);
      MessageReads(st, messages[0], more);
      assert EraseSpaces(more) == more by { FromIsTrimmed(more, 1); }
      MessagesRead(MessageOf(st).0, messages[1..], rest);
    }
  }

  lemma FromIsTrimmed(s: string, n: nat)
    requires From(s, n)
    ensures EraseSpaces(s) == s
  {
  }

  lemma MessageEnds(s: string)
    requires From(s, 1)
    ensures EndsMessage(s)
  {
    hide EraseSpaces, From, ApartFrom;
    MessageKeywordsApart();
    NotAhead(",", s, 1);
    NotAhead("SG_", s, 1);
  }

  lemma OnlyTransmitters(s: string)
    requires From(s, 2)
    ensures "BO_" <= s ==> "BO_TX_BU_" <= s
  {
    hide EraseSpaces, ApartFrom, KEYWORDS;
    FromIsTrimmed(s, 2);
    MessageKeywordsApart();
    KeywordNumbers();
    if From(s, 3) {
      NotAhead("BO_", s, 3);
    } else if s != "" {
      var i :| 2 <= i < |KEYWORDS| && KEYWORDS[i] + " " <= s;
      assert "BO_TX_BU_ " <= s;
    }
  }

  /** Of the sections behind the messages only BO_TX_BU_ starts like a message, and that one is excepted. */
  lemma NoMessage(st: St)
    requires From(st.file, 2)
    ensures MessageOf(st) == (St(st.file, st.valid, false), NO_MESSAGE)
  {
    hide EraseSpaces, IsSuffix;
    FromIsTrimmed(st.file, 2);
    OnlyTransmitters(st.file);
  }

  lemma AfterMessagesRead(f: FileText, st: St)
    requires PrintableParts(f) && From(CommentsAndMore(f), 6) && st.valid && st.file == BackTo(f)
    ensures AfterMessages(st) == Some(St(CommentsAndMore(f), true, false)) && From(BackTo(f), 2)
  {
    hide EraseSpaces, Sections, Section, SkippedTo, CommentsAndMore, From, ApartFrom, KEYWORDS, IsWord, AreBodies,
         PrintableMessage, PrintableComment, PrintableValues;
    SkippedKeywordsApart();
    KeywordsAreWords();
    KeywordNumbers();
    var types := SkippedTo("SGTYPE_", f.signalTypes, CommentsAndMore(f));
    RowReads(St(types, true, false), 5, f.signalTypes, CommentsAndMore(f));
    var data := SkippedTo("ENVVAR_DATA_", f.variableData, types);
    OneReads(St(data, true, false), 4, f.variableData, types);
    var variables := SkippedTo("EV_", f.variables, data);
    RowReads(St(variables, true, false), 3, f.variables, data);
    RowReads(st, 2, f.transmitters, variables);
    SectionIgnoresParsed(Section(St(data, true, false), "ENVVAR_DATA_").0, St(types, true, false), "SGTYPE_");
  }

  lemma KeywordNumbers()
    ensures |KEYWORDS| == 14 && KEYWORDS[0] == "VAL_TABLE_" && KEYWORDS[1] == "BO_" && KEYWORDS[2] == "BO_TX_BU_"
            && KEYWORDS[3] == "EV_"
    ensures KEYWORDS[4] == "ENVVAR_DATA_" && KEYWORDS[5] == "SGTYPE_" && KEYWORDS[7] == "BA_DEF_"
            && KEYWORDS[8] == "BA_DEF_DEF_"
    ensures KEYWORDS[9] == "BA_" && KEYWORDS[12] == "SIG_GROUP_" && KEYWORDS[13] == "SIG_VALTYPE_"
  {
  }

  /** The loop for definitions skips those of default values, too. */
  lemma AttributesRead(f: FileText, st: St)
    requires PrintableParts(f) && From(LateTo(f), 10) && st.valid && st.file == AttributesTo(f)
    ensures Attributes(st) == Some(St(LateTo(f), true, false)) && From(AttributesTo(f), 7)
  {
    hide EraseSpaces, Sections, Section, SkippedTo, LateTo, ApartFrom, KEYWORDS, IsWord, AreBodies, PrintableMessage,
         PrintableComment, PrintableValues;
    LateKeywordsApart();
    KeywordsAreWords();
    KeywordNumbers();
    var attributes := SkippedTo("BA_", f.attributes, LateTo(f));
    RowReads(St(attributes, true, false), 9, f.attributes, LateTo(f));
    var defaults := SkippedTo("BA_DEF_DEF_", f.defaults, attributes);
    RowIsSkipped(st, St(defaults, true, false), "BA_DEF_", "BA_DEF_", f.definitions);
    RowIsSkipped(St(defaults, true, false), St(attributes, true, false), "BA_DEF_", "BA_DEF_DEF_", f.defaults);
    NoSection(St(attributes, true, false), "BA_DEF_", 9);
    NoSection(St(attributes, true, false), "BA_DEF_DEF_", 9);
    SkippedStarts(8, f.defaults, attributes);
    SkippedStarts(7, f.definitions, defaults);
  }

  lemma TailReads(f: FileText, st: St)
    requires PrintableParts(f) && st.valid && st.file == TailTo(f)
    ensures Tail(st).Some? && Tail(st).value.file == "" && From(TailTo(f), 12)
  {
    hide EraseSpaces, Sections, Section, SkippedTo, ApartFrom, KEYWORDS, IsWord, AreBodies, PrintableMessage,
         PrintableComment, PrintableValues;
    LateKeywordsApart();
    SkippedKeywordsApart();
    KeywordsAreWords();
    KeywordNumbers();
    assert From("", 14) by { NothingLeft(); }
    assert ApartFrom("SIG_VALTYPE_", 14) && ApartFrom("SGTYPE_", 12) by { KeywordsBehind(); }
    var types := SkippedTo("SIG_VALTYPE_", f.valueTypes, "");
    OneReads(St(types, true, false), 13, f.valueTypes, "");
    SkippedStarts(12, f.groups, types);
    NoSection(st, "SGTYPE_", 12);
    var s1 := St(st.file, true, false);
    OneReads(s1, 12, f.groups, types);
    OneReads(Section(s1, "SIG_GROUP_").0, 13, f.valueTypes, "");
    NothingLeft();
  }

  lemma NothingLeft()
    ensures From("", 14) && EraseSpaces("") == ""
  {
  }

  lemma KeywordsBehind()
    requires ApartFrom("SGTYPE_", 6)
    ensures ApartFrom("SIG_VALTYPE_", 14) && ApartFrom("SGTYPE_", 12)
  {
    hide Apart, KEYWORDS;
    KeywordNumbers();
  }

  /** Late comments are told from the others by the attributes between them. */
  lemma CommentsEnd(f: FileText)
    requires PrintableParts(f) && From(AllValuesTo(f.values, TailTo(f)), 11)
    ensures !("CM_" <= AttributesTo(f))
  {
    hide EraseSpaces, From, ApartFrom, PrintableMessage, PrintableComment, PrintableValues, AllValuesTo, TailTo;
    LateKeywordsApart();
    if f.definitions == [] && f.defaults == [] && f.attributes == [] {
      NotAhead("CM_", AllValuesTo(f.values, TailTo(f)), 11);
      FromIsTrimmed(AllValuesTo(f.values, TailTo(f)), 11);
    } else {
      assert AttributesTo(f)[0] == 'B';
    }
  }

  /** Everything behind the messages. */
  lemma BackReads(f: FileText, st: St)
    requires PrintableParts(f) && st.valid && st.file == BackTo(f)
    ensures BackOf(st).Some? && BackOf(st).value.st.file == ""
    ensures BackOf(st).value.comments == DescribedComments(f.comments) + DescribedComments(f.lateComments)
    ensures BackOf(st).value.values == DescribedAll(f.values) && From(BackTo(f), 2)
  {
    hide AfterMessages, Attributes, Tail, Comments, AllSignalValues, CommentsTo, AllValuesTo, DescribedComments,
         DescribedAll, PrintableComment, PrintableValues, PrintableMessage, IsSuffix, EraseSpaces, From, ApartFrom,
         AttributesTo, TailTo, BackTo, KEYWORDS, AreBodies, IsWord;
    var tail, late := TailTo(f), LateTo(f);
    var values := AllValuesTo(f.values, tail);
    TailReads(f, St(tail, true, false));
    ValuesStartText(f.values, tail);
    assert From(values, 10) by { FromEarlier(values, 11, 10); }
    CommentsStart(f.lateComments, values, 10);
    AttributesRead(f, St(AttributesTo(f), true, false));
    assert From(AttributesTo(f), 6) by { FromEarlier(AttributesTo(f), 7, 6); }
    CommentsStart(f.comments, AttributesTo(f), 6);
    AfterMessagesRead(f, st);
    FromIsTrimmed(tail, 12);
    FromIsTrimmed(values, 11);
    FromIsTrimmed(AttributesTo(f), 7);
    CommentsEnd(f);
    CommentsRead(St(CommentsAndMore(f), true, false), f.comments, AttributesTo(f));
    assert !("CM_" <= values) && !("VAL_" <= tail) by {
      LateKeywordsApart();
      NotAhead("CM_", values, 11);
      NotAhead("VAL_", tail, 12);
    }
    CommentsRead(St(late, true, false), f.lateComments, values);
    AllValuesRead(St(values, true, false), f.values, tail);
  }

  lemma FromEarlier(s: string, n: nat, m: nat)
    requires From(s, n) && m <= n
    ensures From(s, m)
  {
    hide EraseSpaces, KEYWORDS;
  }

  // ----- The whole file

  lemma WordsStart(words: seq<string>, rest: string)
    requires words != [] && IsWord(words[0])
    ensures EraseSpaces(WordsTo(words, rest)) == WordsTo(words, rest)
    ensures EraseSpaces(" " + WordsTo(words, rest)) == WordsTo(words, rest)
  {
    hide EraseSpaces, IsWord;
    WordFirst(words[0]);
    NoSpace(words[0], " " + WordsTo(words[1..], rest));
  }

  /** The list of symbols ends at the first word with a colon, which is pushed back. */
  lemma {:induction false} SymbolsRead(st: St, words: seq<string>, rest: string)
    requires forall w | w in words :: IsWord(w)
    requires EraseSpaces(st.file) == EraseSpaces(WordsTo(words, "BS_" + (":" + rest)))
    ensures SymbolLoop(st) == St("BS_" + (":" + rest), true, true)
    decreases |words|
  {
    hide EraseSpaces, Identifier, IsWord, IsSuffix;
    if words == [] {
      NoSpace("BS_", ":" + rest);
      assert IsWord("BS_") by { TimingIsWord(); }
      IdentifierReads(st, "BS_", ":" + rest);
    } else {
      var more := WordsTo(words[1..], "BS_" + (":" + rest));
      WordsStart(words, "BS_" + (":" + rest));
      IdentifierReads(st, words[0], " " + more);
      OneSpace(more);
      SymbolsRead(Identifier(st).0, words[1..], rest);
    }
  }

  lemma TimingIsWord()
    ensures IsWord("BS_")
  {
  }

  /** The list of nodes ends at the section keyword, which is pushed back. */
  lemma {:induction false} NodesRead(st: St, words: seq<string>, keyword: string, rest: string)
    requires (forall w | w in words :: IsWord(w) && w !in SYMBOLS) && IsWord(keyword) && keyword in SYMBOLS
    requires EraseSpaces(st.file) == EraseSpaces(WordsTo(words, keyword + (" " + rest)))
    ensures NodeLoop(st) == (St(keyword + (" " + rest), true, true), words)
    decreases |words|
  {
    hide EraseSpaces, Identifier, IsWord, IsSuffix, SYMBOLS;
    if words == [] {
      WordFirst(keyword);
      NoSpace(keyword, " " + rest);
      IdentifierReads(st, keyword, " " + rest);
    } else {
      var more := WordsTo(words[1..], keyword + (" " + rest));
      WordsStart(words, keyword + (" " + rest));
      IdentifierReads(st, words[0], " " + more);
      OneSpace(more);
      NodesRead(Identifier(st).0, words[1..], keyword, rest);
      assert [words[0]] + words[1..] == words;
    }
  }

  lemma VersionReads(st: St, version: string, rest: string)
    requires '"' !in version && st.file == "VERSION" + (" " + ("\"" + (version + ("\"" + rest))))
    ensures Version(st) == (St(rest, true, true), version)
  {
    hide EraseSpaces, Quoted, Ahead, After;
    var quoted := " " + ("\"" + (version + ("\"" + rest)));
    NoSpace("VERSION", quoted);
    ExpectReads(st, "VERSION", quoted);
    NoSpace("\"", version + ("\"" + rest));
    QuotedReads(After(st, "VERSION"), version, rest);
  }

  lemma NewSymbolsRead(st: St, words: seq<string>, rest: string)
    requires forall w | w in words :: IsWord(w)
    requires st.file == " " + ("NS_" + (" " + (":" + (" " + WordsTo(words, "BS_" + (":" + rest))))))
    ensures NewSymbols(st) == St("BS_" + (":" + rest), true, true)
  {
    hide EraseSpaces, SymbolLoop, Ahead, After, IsWord, WordsTo;
    var symbols := " " + WordsTo(words, "BS_" + (":" + rest));
    NoSpace("NS_", " " + (":" + symbols));
    ExpectReads(st, "NS_", " " + (":" + symbols));
    var t := After(st, "NS_");
    NoSpace(":", symbols);
    ExpectReads(t, ":", symbols);
    OneSpace(WordsTo(words, "BS_" + (":" + rest)));
    SymbolsRead(After(t, ":"), words, rest);
  }

  lemma BitTimingReads(st: St, rest: string)
    requires st.file == "BS_" + (":" + (" " + ("BU_:" + rest)))
    ensures BitTiming(st) == St("BU_:" + rest, true, true)
  {
    hide EraseSpaces;
    var nodes := " " + ("BU_:" + rest);
    assert "BS_:" + nodes == "BS_" + (":" + nodes);
    NoSpace("BS_:", nodes);
    ExpectReads(st, "BS_:", nodes);
    NoSpace("BU_:", rest);
    assert "BU_" <= "BU_:" + rest;
  }

  lemma NodeSectionReads(st: St, words: seq<string>, keyword: string, rest: string)
    requires (forall w | w in words :: IsWord(w) && w !in SYMBOLS) && IsWord(keyword) && keyword in SYMBOLS
    requires st.file == "BU_:" + (" " + WordsTo(words, keyword + (" " + rest)))
    ensures Nodes(st) == (St(keyword + (" " + rest), true, true), words)
  {
    hide EraseSpaces, NodeLoop, Ahead, After, IsWord, WordsTo, SYMBOLS;
    var nodes := WordsTo(words, keyword + (" " + rest));
    NoSpace("BU_:", " " + nodes);
    ExpectReads(st, "BU_:", " " + nodes);
    OneSpace(nodes);
    NodesRead(After(st, "BU_:"), words, keyword, rest);
  }

  /** What FrontOf reads, given what each of its parts reads. */
  lemma FrontOfParts(text: string, version: string, symbols: string, timing: string, nodes: string, body: string,
                     rest: string, back: string, names: seq<string>, messages: seq<Message>)
    requires Version(St(text, true, true)) == (St(symbols, true, true), version)
    requires NewSymbols(St(symbols, true, true)) == St(timing, true, true)
    requires BitTiming(St(timing, true, true)) == St(nodes, true, true)
    requires Nodes(St(nodes, true, true)) == (St(body, true, true), names)
    requires Sections(St(body, true, true), "VAL_TABLE_") == Some(St(rest, true, false))
    requires Messages(St(rest, true, false)) == Some((St(back, true, false), messages))
    ensures FrontOf(text) == Some(Front(St(back, true, false), version, names, messages))
  {
    hide Version, NewSymbols, BitTiming, Nodes, Messages, Sections, IsSuffix;
  }

  lemma BodyIsFrom(f: FileText)
    requires PrintableParts(f) && From(BackTo(f), 2)
    ensures From(BodyTo(f), 0) && From(MessagesTo(f.messages, BackTo(f)), 1)
  {
    hide EraseSpaces, BackTo, MessagesTo, SkippedTo, PrintableMessage, PrintableComment, PrintableValues, KEYWORDS,
         IsWord, AreBodies;
    KeywordNumbers();
    KeywordsAreWords();
    var messages := MessagesTo(f.messages, BackTo(f));
    MessagesStart(f.messages, BackTo(f));
    FromEarlier(messages, 1, 0);
    SkippedStarts(0, f.tables, messages);
  }

  /** The keyword with which a text starts. */
  lemma KeywordAhead(s: string) returns (keyword: string, tail: string)
    requires s != "" && From(s, 0)
    ensures s == keyword + (" " + tail) && IsWord(keyword) && (keyword in SYMBOLS || keyword == "EV_")
    ensures "EV_" <= s ==> keyword == "EV_"
  {
    hide EraseSpaces, KEYWORDS, IsWord, SYMBOLS;
    KeywordsAreWords();
    KeywordNumbers();
    VariableIsApart();
    var i :| 0 <= i < |KEYWORDS| && KEYWORDS[i] + " " <= s;
    keyword, tail := KEYWORDS[i], s[|KEYWORDS[i]| + 1..];
    assert s[..|keyword| + 1] == keyword + " ";
    if i != 3 { ApartMeans("EV_", KEYWORDS[i], 0, s); }
  }

  lemma VariableIsApart()
    ensures forall i | 0 <= i < |KEYWORDS| && i != 3 :: Apart("EV_", KEYWORDS[i], 0)
  {
  }

  lemma FrontReads(f: FileText)
    requires PrintableParts(f) && EndsNodes(BodyTo(f)) && From(BackTo(f), 2)
    ensures FrontOf(FileString(f))
            == Some(Front(St(BackTo(f), true, false), f.version, f.nodes, DescribedMessages(f.messages)))
  {
    hide EraseSpaces, Version, NewSymbols, BitTiming, Nodes, Messages, Sections, WordsTo, MessagesTo, PrintableMessage,
         DescribedMessages, IsWord, FrontOf, IsSuffix, BackTo, From, ApartFrom, KEYWORDS, SYMBOLS, PrintableComment,
         PrintableValues, SkippedTo, AreBodies;
    var back, body := BackTo(f), BodyTo(f);
    BodyIsFrom(f);
    var keyword, tail := KeywordAhead(body);
    assert keyword in SYMBOLS by { if keyword == "EV_" { PrefixOf(keyword, " " + tail); } }
    var messages := MessagesTo(f.messages, back);
    var nodes := " " + WordsTo(f.nodes, body);
    var rest := " " + ("BU_:" + nodes);
    var symbols := " " + ("NS_" + (" " + (":" + (" " + WordsTo(f.symbols, "BS_" + (":" + rest))))));
    VersionReads(St(FileString(f), true, true), f.version, symbols);
    NewSymbolsRead(St(symbols, true, true), f.symbols, rest);
    BitTimingReads(St("BS_" + (":" + rest), true, true), nodes);
    NodeSectionReads(St("BU_:" + nodes, true, true), f.nodes, keyword, tail);
    TablesRead(f, St(body, true, true));
    MessagesRead(St(messages, true, false), f.messages, back);
    FrontOfParts(FileString(f), f.version, symbols, "BS_" + (":" + rest), "BU_:" + nodes, body, messages, back, f.nodes,
                 DescribedMessages(f.messages));
  }

  lemma PrefixOf(a: string, b: string)
    ensures a <= a + b
  {
  }

  lemma TablesRead(f: FileText, st: St)
    requires PrintableParts(f) && From(MessagesTo(f.messages, BackTo(f)), 1) && st.valid && st.file == BodyTo(f)
    ensures Sections(st, "VAL_TABLE_") == Some(St(MessagesTo(f.messages, BackTo(f)), true, false))
  {
    hide EraseSpaces, BackTo, MessagesTo, SkippedTo, PrintableMessage, PrintableComment, PrintableValues, KEYWORDS,
         IsWord, AreBodies, From, ApartFrom, Sections;
    KeywordNumbers();
    KeywordsAreWords();
    MessageKeywordsApart();
    RowReads(st, 0, f.tables, MessagesTo(f.messages, BackTo(f)));
  }

  /** The configuration that a file text describes. */
  function Described(f: FileText): DbcConfig
    requires PrintableParts(f)
  {
    DbcConfig(f.nodes, DescribedMessages(f.messages), DescribedAll(f.values),
              DescribedComments(f.comments) + DescribedComments(f.lateComments), f.version)
  }

  /** A printed file is read as it was printed exactly if its first section ends the list of nodes. */
  lemma FileReads(f: FileText)
    requires PrintableParts(f)
    ensures ConfigOf(FileString(f)) == Some(Described(f)) <==> EndsNodes(BodyTo(f))
  {
    hide FrontOf, BackOf, FileString, PrintableMessage, PrintableComment, PrintableValues, DescribedMessages,
         DescribedAll, DescribedComments, IsWord, BackTo, BodyTo, From, SYMBOLS, AreBodies;
    BackReads(f, St(BackTo(f), true, false));
    if EndsNodes(BodyTo(f)) {
      FrontReads(f);
    } else {
      MoreNodes(f);
    }
  }

  /**
   Without a section that ends it the list of nodes goes on: the file is refused, or read with nodes that it
   does not have.
   */
  lemma MoreNodes(f: FileText)
    requires PrintableParts(f) && !EndsNodes(BodyTo(f))
    ensures var config := ConfigOf(FileString(f));
            (BodyTo(f) == "" ==> config == None) && (config.Some? ==> |config.value.nodes| > |f.nodes|)
  {
    hide EraseSpaces, BackOf, AfterNodes, Messages, Nodes, NodeLoop, WordsTo, PrintableMessage, PrintableComment,
         PrintableValues, IsWord, IsSuffix, BodyTo, FileString, SYMBOLS, AreBodies, From, BackTo;
    var body := BodyTo(f);
    var nodes := " " + WordsTo(f.nodes, body);
    BackReads(f, St(BackTo(f), true, false));
    NodesAreNext(f);
    NodeSectionIsLoop(St("BU_:" + nodes, true, true), WordsTo(f.nodes, body));
    var keyword, tail := "", "";
    if body != "" {
      BodyIsFrom(f);
      keyword, tail := KeywordAhead(body);
    }
    OneSpace(WordsTo(f.nodes, body));
    WordsGoOn(St(nodes, true, true), f.nodes, body, tail);
  }

  /** Up to the list of nodes every printed file is read alike. */
  lemma NodesAreNext(f: FileText)
    requires PrintableParts(f)
    ensures var r := Nodes(St("BU_:" + (" " + WordsTo(f.nodes, BodyTo(f))), true, true));
            var front := FrontOf(FileString(f));
            front.Some? ==> r.0.valid && front.value.nodes == r.1
  {
    hide EraseSpaces, Version, NewSymbols, BitTiming, Nodes, AfterNodes, Messages, WordsTo, PrintableMessage, IsWord,
         IsSuffix, BodyTo, SYMBOLS, PrintableComment, PrintableValues, AreBodies;
    var nodes := " " + WordsTo(f.nodes, BodyTo(f));
    var rest := " " + ("BU_:" + nodes);
    var symbols := " " + ("NS_" + (" " + (":" + (" " + WordsTo(f.symbols, "BS_" + (":" + rest))))));
    VersionReads(St(FileString(f), true, true), f.version, symbols);
    NewSymbolsRead(St(symbols, true, true), f.symbols, rest);
    BitTimingReads(St("BS_" + (":" + rest), true, true), nodes);
  }

  lemma NodeSectionIsLoop(st: St, nodes: string)
    requires st.file == "BU_:" + (" " + nodes) && st.valid && st.parsed
    ensures Nodes(st) == NodeLoop(St(" " + nodes, true, true))
  {
    hide EraseSpaces, NodeLoop, Ahead, After;
    NoSpace("BU_:", " " + nodes);
    ExpectReads(st, "BU_:", " " + nodes);
  }

  /** A word that is no keyword, and the end of the text, do not end the list of nodes. */
  lemma {:induction false} WordsGoOn(st: St, words: seq<string>, body: string, tail: string)
    requires forall w | w in words :: IsWord(w) && w !in SYMBOLS
    requires (body == "" || body == "EV_" + (" " + tail)) && EraseSpaces(st.file) == EraseSpaces(WordsTo(words, body))
    ensures NodeLoop(st).0.valid ==> body != "" && |NodeLoop(st).1| > |words|
    decreases |words|
  {
    hide EraseSpaces, IsWord, IsSuffix, SYMBOLS;
    if words != [] {
      hide Identifier;
      var more := WordsTo(words[1..], body);
      WordsStart(words, body);
      IdentifierReads(st, words[0], " " + more);
      OneSpace(more);
      WordsGoOn(Identifier(st).0, words[1..], body, tail);
    } else if body == "" {
      NothingLeft();
      NoWord(st);
    } else {
      hide Identifier;
      VariableIsNoKeyword();
      NoSpace("EV_", " " + tail);
      IdentifierReads(st, "EV_", " " + tail);
    }
  }

  lemma VariableIsNoKeyword()
    ensures IsWord("EV_") && "EV_" !in SYMBOLS
  {
  }

  lemma NoWord(st: St)
    requires EraseSpaces(st.file) == "" || EraseSpaces(st.file)[0] == ':'
    ensures !Identifier(st).0.valid
  {
  }

  /** A file whose first section is an environment variable is refused: its keyword and its name are taken for nodes. */
  lemma VariableFirstIsRefused(f: FileText, name: string, more: string)
    requires PrintableParts(f) && IsWord(name) && name !in SYMBOLS
    requires BodyTo(f) == "EV_" + (" " + (name + (":" + more)))
    ensures ConfigOf(FileString(f)) == None
  {
    hide FrontOf, BackOf, NodeLoop, WordsTo, PrintableMessage, PrintableComment, PrintableValues, IsWord, IsSuffix,
         BodyTo, FileString, SYMBOLS, AreBodies, EraseSpaces;
    var text := WordsTo(f.nodes, BodyTo(f));
    NodesAreNext(f);
    NodeSectionIsLoop(St("BU_:" + (" " + text), true, true), text);
    OneSpace(text);
    OneMoreWord(f.nodes, "EV_", name + (":" + more));
    VariableIsNoKeyword();
    WordsThenColon(St(" " + text, true, true), f.nodes + ["EV_"], name, more);
  }

  lemma {:induction false} OneMoreWord(words: seq<string>, word: string, rest: string)
    ensures WordsTo(words, word + (" " + rest)) == WordsTo(words + [word], rest)
    decreases |words|
  {
    if words == [] {
      assert [word][1..] == [];
    } else {
      assert (words + [word])[1..] == words[1..] + [word];
      OneMoreWord(words[1..], word, rest);
    }
  }

  lemma {:induction false} WordsThenColon(st: St, words: seq<string>, name: string, more: string)
    requires (forall w | w in words :: IsWord(w) && w !in SYMBOLS) && IsWord(name) && name !in SYMBOLS
    requires EraseSpaces(st.file) == EraseSpaces(WordsTo(words, name + (":" + more)))
    ensures !NodeLoop(st).0.valid
    decreases |words|
  {
    hide EraseSpaces, IsWord, IsSuffix, SYMBOLS, Identifier;
    if words == [] {
      WordFirst(name);
      NoSpace(name, ":" + more);
      IdentifierReads(st, name, ":" + more);
      NoSpace(":", more);
      NoWord(Identifier(st).0);
    } else {
      var text := WordsTo(words[1..], name + (":" + more));
      WordsStart(words, name + (":" + more));
      IdentifierReads(st, words[0], " " + text);
      OneSpace(text);
      WordsThenColon(Identifier(st).0, words[1..], name, more);
    }
  }

  /** For instance a file with nothing but an environment variable in it. */
  lemma OnlyAVariable()
    ensures var f := FileText("", [], [], [], [], [], ["x" + (":" + " 0")], [], [], [], [], [], [], [], [], [], []);
            PrintableParts(f) && !EndsNodes(BodyTo(f)) && ConfigOf(FileString(f)) == None
  {
    hide ConfigOf, FileString, IsWord, SYMBOLS;
    var f := FileText("", [], [], [], [], [], ["x" + (":" + " 0")], [], [], [], [], [], [], [], [], [], []);
    assert AreBodies(f.variables) && AreBodies([]);
    var more := " 0" + (";" + "");
    assert ("x" + (":" + " 0")) + (";" + "") == "x" + (":" + more);
    assert CommentsAndMore(f) == "";
    OneSection("EV_", f.variables[0], "");
    XIsAName();
    VariableFirstIsRefused(f, "x", more);
  }

  lemma OneSection(keyword: string, body: string, rest: string)
    ensures SkippedTo(keyword, [body], rest) == keyword + (" " + (body + (";" + rest)))
  {
    assert [body][1..] == [];
  }

  lemma XIsAName()
    ensures IsWord("x") && "x" !in SYMBOLS
  {
  }
}
