// Sentences whose printed text no reader gets through (squoia_xfer_lex.cc).
module PrintedExamples {
  import opened Options
  import opened Strings
  import opened Tokens
  import opened TransferGrammar
  import opened Escaping
  import opened Markup
  import opened PrintedValues
  import opened ProgramLexicon
  import opened AttributeText
  import opened KeptAttributes
  import opened PrintedTransfer

  // ---- Text in front of what breaks. ----

  lemma RestSpaces(n: nat, s: string)
    requires s != "" && s[0] == ' '
    ensures ReadRest(Spaces(n) + s) == ReadRest(s)
  {
    hide SkipSpaces, ReadAttribute;
    SpacesSkipped(n, s);
    SpaceSkipped(s);
  }

  lemma SpaceSkipped(s: string)
    requires s != "" && s[0] == ' '
    ensures |SkipSpaces(s)| < |s|
  {
  }

  // Attributes that can be read are taken off the front.
  lemma ReadsThen(text: string, attributes: Attributes, more: string)
    requires Reads(text, attributes, true) && more != "" && more[0] == ' '
    ensures ReadRest(text + more) == ConsAll(attributes, ReadRest(more))
  {
    hide ReadRest, PiecesText, Spaces, AreHonest, AreReadable, Values;
    var ps, trail :| ReadsAs(text, attributes, true, ps, trail);
    RestSpaces(trail, more);
    assert text + more == PiecesText(ps) + (Spaces(trail) + more);
    PiecesAreRead(ps, Spaces(trail) + more);
  }

  // An attribute whose value is cut short by an apostrophe is followed by no space.
  lemma CutShort(name: string, value: string, more: string)
    requires IsName(name) && '\'' !in value && '<' !in value && '&' !in value
    ensures ReadRest(" " + (name + "='" + value + "''") + more) == None
  {
    hide ReadAttribute, SkipSpaces, ReadValue, IsName;
    var left := "'" + more;
    var t := name + "='" + value + "'" + left;
    NameStarts(name, value + "'" + left);
    assert t == name + "='" + (value + "'" + left);
    var s := " " + t;
    assert " " + (name + "='" + value + "''") + more == s;
    assert Spaces(1) == " ";
    SpacesSkipped(1, t);
    RestStep(s);
    QuotedIsRead(name, value, left);
    ReadRawIff(value);
    QuoteFirst(more);
  }

  lemma QuoteFirst(more: string)
    ensures ReadRest("'" + more) == None
  {
    hide ReadAttribute;
    NoSpaceSkipped("'" + more);
  }

  // A value with a '<' cannot be read.
  lemma BracketInValue(name: string, value: string, more: string)
    requires IsName(name) && '\'' !in value && '<' in value
    ensures ReadRest(" " + (name + "='" + value + "'") + more) == None
  {
    hide ReadAttribute, SkipSpaces, ReadValue, IsName;
    var t := name + "='" + value + "'" + more;
    NameStarts(name, value + "'" + more);
    assert t == name + "='" + (value + "'" + more);
    var s := " " + t;
    assert " " + (name + "='" + value + "'") + more == s;
    assert Spaces(1) == " ";
    SpacesSkipped(1, t);
    RestStep(s);
    QuotedIsRead(name, value, more);
    ReadHasNoBracket(value);
  }

  // ---- A sentence with one NODE. ----

  function OneNode(attributes: Attributes): SentenceTree
  {
    SentenceTree([], false, [ChunkTree([], false, EmptyNode(attributes), [])])
  }

  // When the start of its NODE cannot be read, the whole printed sentence cannot.
  lemma UnreadableNode(lex: Lexicon, attributes: Attributes)
    requires IsProgram(lex) && FieldSafe(TypeOf(lex, []))
    requires forall rest :: ReadTag(Print(FirstTag(lex, attributes)) + rest) == None
    ensures ReadMarkup(PrintAll(SentenceTags(lex, OneNode(attributes)))) == None
  {
    hide ReadTag, IsProgram, FieldSafe, NodeTags, SentenceText, ChunkText, Print, ReadMarkup, Tells;
    var t := OneNode(attributes);
    var sentence, chunk := OpenTag("SENTENCE", SentenceText(lex, [])), OpenTag("CHUNK", ChunkText(lex, []));
    var node := NodeTags(lex, EmptyNode(attributes));
    var rest := [CloseTag("CHUNK"), CloseTag("SENTENCE")];
    var tags := [sentence] + ([chunk] + (node + rest));
    assert SentenceTags(lex, t) == tags by {
      OneNodeTags(lex, attributes);
    }
    EmptyHeads(lex);
    var more := PrintAll(node + rest);
    FirstTagIsFirst(lex, attributes);
    assert node + rest == [node[0]] + (node[1..] + rest);
    FirstPrinted(node[0], node[1..] + rest);
    PrintStarts(node[0], PrintAll(node[1..] + rest));
    MarkupStep(more);
    OneBeforeOther(sentence, StartTag("SENTENCE", [("ref", "")]), [chunk] + (node + rest));
    OneBeforeOther(chunk, StartTag("CHUNK", ChunkAttributes(lex, [])), node + rest);
  }

  lemma OneNodeTags(lex: Lexicon, attributes: Attributes)
    ensures SentenceTags(lex, OneNode(attributes))
      == [OpenTag("SENTENCE", SentenceText(lex, []))] + ([OpenTag("CHUNK", ChunkText(lex, []))]
         + (NodeTags(lex, EmptyNode(attributes)) + [CloseTag("CHUNK"), CloseTag("SENTENCE")]))
  {
    hide NodeTags, SentenceText, ChunkText;
    var chunk := ChunkTree([], false, EmptyNode(attributes), []);
    assert [chunk][1..] == [];
    assert ChunksTags(lex, []) == [];
    assert ChunksTags(lex, [chunk]) == ChunkTags(lex, chunk) + [];
  }

  lemma FirstPrinted(tag: Tag, tags: seq<Tag>)
    ensures PrintAll([tag] + tags) == Print(tag) + PrintAll(tags)
  {
    assert ([tag] + tags)[1..] == tags;
  }

  lemma EmptyHeads(lex: Lexicon)
    requires IsProgram(lex) && FieldSafe(TypeOf(lex, []))
    ensures Tells([OpenTag("SENTENCE", SentenceText(lex, []))], [StartTag("SENTENCE", [("ref", "")])], true)
    ensures Tells([OpenTag("CHUNK", ChunkText(lex, []))], [StartTag("CHUNK", ChunkAttributes(lex, []))], true)
  {
    hide Tells, IsProgram, SentenceText, ChunkText, TypeOf;
    SentenceStarts(lex);
    ChunkHeadTells(lex, []);
  }

  lemma OneBeforeOther(tag: Tag, markup: Markup, tags: seq<Tag>)
    requires Tells([tag], [markup], true)
    ensures ReadMarkup(PrintAll([tag] + tags)) == Follow([markup], ReadMarkup(PrintAll(tags)))
  {
    hide Print, ReadMarkup;
    PrintContinues(tags, "");
    assert PrintAll(tags) + "" == PrintAll(tags);
    assert TellsBefore([tag], [markup], true, PrintAll(tags));
    PrintAllAppend([tag], tags);
  }

  // What is printed of a NODE first.
  function FirstTag(lex: Lexicon, attributes: Attributes): Tag
  {
    var head := HeadOr(lex, attributes);
    if head.inserted == [] then EmptyTag("NODE", head.text, false) else OpenTag("NODE", head.text)
  }

  lemma FirstTagIsFirst(lex: Lexicon, attributes: Attributes)
    ensures NodeTags(lex, EmptyNode(attributes)) != []
    ensures NodeTags(lex, EmptyNode(attributes))[0] == FirstTag(lex, attributes)
  {
    hide HeadOr;
  }

  // The text of a NODE begins with the six attributes.
  lemma BaseComesFirst(lex: Lexicon, attributes: Attributes) returns (more: string)
    requires LookUpNode(lex, attributes).Some?
    ensures HeadOr(lex, attributes).text == BaseText(lex, attributes) + more
  {
    hide BaseText, LookUpNode, FirstSynonyms, SecondSynonyms, MultiNodes, Selected, Field;
    var base, unknown := BaseText(lex, attributes), Attribute(attributes, "unknown");
    var found := LookUpNode(lex, attributes).value;
    if unknown != "" {
      more := " " + Field(lex, "unknown", unknown);
      assert base + " " + Field(lex, "unknown", unknown) == base + more;
    } else if Unknown(found) {
      more := " unknown='transfer'";
    } else if found.ambilem {
      var lem := if found.trad != [] then found.lem1 else found.lem2;
      more := " tradlem='" + lem + "' " + " " + Selected(found);
      assert base + " tradlem='" + lem + "' " + " " + Selected(found) == base + more;
    } else {
      more := " " + Selected(found);
      assert base + " " + Selected(found) == base + more;
    }
  }

  // When the text after some attributes that can be read cannot be read, the tag cannot.
  lemma UnreadableTag(tag: Tag, text: string, attributes: Attributes, more: string, rest: string)
    requires !tag.CloseTag? && IsName(tag.name)
    requires " " + tag.text + (End(tag) + rest) == text + more && Reads(text, attributes, true)
    requires more != "" && more[0] == ' ' && ReadRest(more) == None
    ensures ReadTag(Print(tag) + rest) == None
  {
    hide ReadRest, ReadTag, Print, Reads, IsDistinct, IsName;
    TagStep(tag, text + more, rest);
    ReadsThen(text, attributes, more);
  }

  // A lemma that ends in an apostrophe, as in lem="o'": slem='o'' is printed, and no reader gets past it.
  lemma QuoteAtTheEnd(lex: Lexicon)
    requires IsProgram(lex) && FieldSafe(TypeOf(lex, []))
    ensures Escape("o'") == "o'" && !FieldSafe("o'")
    ensures ReadMarkup(PrintAll(SentenceTags(lex, OneNode([("lem", "o'")])))) == None
  {
    hide ReadTag, IsProgram, FieldSafe, NodeTags, Print, ReadMarkup, Escape, TypeOf, OneNode, SentenceTags, FirstTag;
    QuoteIsKept();
    var attributes := [("lem", "o'")];
    FirstTagIsFirst(lex, attributes);
    forall rest
      ensures ReadTag(Print(FirstTag(lex, attributes)) + rest) == None
    {
      QuoteBreaksNode(lex, rest);
    }
    UnreadableNode(lex, attributes);
  }

  lemma QuoteIsKept()
    ensures Escape("o'") == "o'" && !FieldSafe("o'") && Escape("") == "" && FieldSafe("")
  {
    assert "o'"[1..] == "'" && "'"[1..] == "";
    assert EscapeFrom(Some('o'), "'") == "'" + EscapeFrom(Some('\''), "'"[1..]);
  }

  lemma LemOnly(lem: string)
    ensures Attribute([("lem", lem)], "lem") == lem
    ensures forall name :: name != "lem" ==> Attribute([("lem", lem)], name) == ""
  {
    forall name | name != "lem"
      ensures Attribute([("lem", lem)], name) == ""
    {
      assert [("lem", lem)][1..] == [];
    }
  }

  lemma QuoteBreaksNode(lex: Lexicon, rest: string)
    requires IsProgram(lex)
    ensures ReadTag(Print(FirstTag(lex, [("lem", "o'")])) + rest) == None
  {
    hide ReadTag, Print, HeadOr, LookUpNode, Escape, Field, FieldSafe, Reads, ReadRest, IsName, BaseText, Attribute;
    var attributes := [("lem", "o'")];
    LemOnly("o'");
    OneLemmaFound(lex);
    QuoteIsKept();
    Names();
    var more := BaseComesFirst(lex, attributes);
    var tag := FirstTag(lex, attributes);
    var text, later := SlemPrinted(lex);
    var end := End(tag) + rest;
    assert lex.escape("o'") == "o'";
    hide IsProgram;
    Behind(BaseText(lex, attributes), more, end, text, " " + "slem='o''", later);
    CutShort("slem", "o", later + more + end);
    assert "slem" + "='" + "o" + "''" == "slem='o''";
    ElementNames();
    UnreadableTag(tag, text, [("ref", ""), ("alloc", "")], " " + ("slem='o''") + (later + more + end), rest);
  }

  lemma Behind(base: string, more: string, end: string, text: string, s: string, later: string)
    requires " " + base == text + s + later
    ensures " " + (base + more) + end == text + (s + (later + more + end))
  {
    assert " " + (base + more) + end == (" " + base) + (more + end);
    assert text + s + later + (more + end) == text + (s + (later + more + end));
  }

  lemma OneLemmaFound(lex: Lexicon)
    ensures LookUpNode(lex, [("lem", "o'")]).Some?
  {
    LemOnly("o'");
    hide Attribute;
    FindIs("o'", '#', 0, 2);
  }

  // The attributes up to slem.
  lemma SlemPrinted(lex: Lexicon) returns (text: string, later: string)
    requires IsProgram(lex)
    ensures " " + BaseText(lex, [("lem", "o'")]) == text + (" " + "slem='o''") + later
    ensures Reads(text, [("ref", ""), ("alloc", "")], true)
  {
    hide Escape, FieldSafe, Reads, IsName, Attribute;
    var attributes := [("lem", "o'")];
    LemOnly("o'");
    QuoteIsKept();
    Names();
    ReadsOne(lex, "ref", "");
    ReadsNext(lex, Field(lex, "ref", ""), [("ref", "")], true, "alloc", "");
    assert lex.escape("o'") == "o'";
    hide IsProgram;
    assert [("ref", "")] + [("alloc", "")] == [("ref", ""), ("alloc", "")];
    text := " " + (Field(lex, "ref", "") + " " + Field(lex, "alloc", ""));
    assert "slem" + "='" + "o'" + "'" == "slem='o''";
    assert Field(lex, "slem", "o'") == "slem='o''";
    hide Field;
    var smi, sform := Field(lex, "smi", ""), Field(lex, "sform", "");
    var upper := Field(lex, "UpCase", lex.upperType("", "", ""));
    later := " " + smi + " " + sform + " " + upper;
    BaseSplits(Field(lex, "ref", ""), Field(lex, "alloc", ""), "slem='o''", smi, sform, upper);
  }

  lemma BaseSplits(a: string, b: string, c: string, d: string, e: string, f: string)
    ensures " " + (a + " " + b + " " + c + " " + d + " " + e + " " + f)
      == " " + (a + " " + b) + (" " + c) + (" " + d + " " + e + " " + f)
  {
  }

  // An ambiguous lemma with a '<' in a part that has a translation: it stands in tradlem as it is, and no
  // reader gets past it.
  lemma BracketInLemma(lex: Lexicon)
    requires IsProgram(lex) && FieldSafe(TypeOf(lex, [])) && FieldSafe(lex.upperType("", "", ""))
    requires lex.translate("a<", "") != []
    ensures ReadMarkup(PrintAll(SentenceTags(lex, OneNode([("lem", "a<#:b")])))) == None
  {
    hide ReadTag, IsProgram, FieldSafe, NodeTags, Print, ReadMarkup, TypeOf, OneNode, SentenceTags, FirstTag;
    var attributes := [("lem", "a<#:b")];
    FirstTagIsFirst(lex, attributes);
    forall rest
      ensures ReadTag(Print(FirstTag(lex, attributes)) + rest) == None
    {
      BracketBreaksNode(lex, rest);
    }
    UnreadableNode(lex, attributes);
  }

  lemma BracketBreaksNode(lex: Lexicon, rest: string)
    requires IsProgram(lex) && FieldSafe(lex.upperType("", "", "")) && lex.translate("a<", "") != []
    ensures ReadTag(Print(FirstTag(lex, [("lem", "a<#:b")])) + rest) == None
  {
    hide ReadTag, Print, Field, FieldSafe, Reads, ReadRest, IsName, BaseText, BaseAttributes, BaseSafe, HeadOr;
    var attributes := [("lem", "a<#:b")];
    Names();
    ReadsBase(lex, attributes);
    BracketBaseSafe(lex);
    hide IsProgram;
    var more := TradLemFirst(lex);
    var tag := FirstTag(lex, attributes);
    var base, end := BaseText(lex, attributes), End(tag) + rest;
    BracketInValue("tradlem", "a<", more + end);
    assert "tradlem" + "='" + "a<" + "'" == "tradlem='a<'";
    var raw := " " + "tradlem='a<'";
    assert " " + (base + (raw + more)) + end == " " + base + (raw + (more + end));
    ElementNames();
    UnreadableTag(tag, " " + base, BaseAttributes(lex, attributes), raw + (more + end), rest);
  }

  lemma BracketBaseSafe(lex: Lexicon)
    requires FieldSafe(lex.upperType("", "", ""))
    ensures BaseSafe(lex, [("lem", "a<#:b")])
  {
    LemOnly("a<#:b");
    assert FieldSafe("a<#:b") && FieldSafe("");
    hide FieldSafe, Attribute;
  }

  lemma TradLemFirst(lex: Lexicon) returns (more: string)
    requires lex.translate("a<", "") != []
    ensures HeadOr(lex, [("lem", "a<#:b")]).text == BaseText(lex, [("lem", "a<#:b")]) + (" " + "tradlem='a<'" + more)
  {
    hide BaseText, FirstSynonyms, SecondSynonyms, MultiNodes, Selected, Find;
    var attributes, lem := [("lem", "a<#:b")], "a<#:b";
    LemOnly(lem);
    hide Attribute;
    FindIs(lem, '#', 0, 2);
    assert lem[..2] == "a<" && lem[4..] == "b";
    var found := LookUpNode(lex, attributes).value;
    assert found.ambilem && found.trad == lex.translate("a<", "") && found.lem1 == "a<";
    more := "' "[1..] + " " + Selected(found);
    var base := BaseText(lex, attributes);
    assert base + " tradlem='" + "a<" + "' " + " " + Selected(found) == base + (" " + "tradlem='a<'" + more);
  }

  // A '>' does no harm there.
  lemma AngleIsHarmless()
    ensures RawSafe("a>") && ReadValue("a>") == Some("a>")
  {
    ReadRawIff("a>");
  }

  // ---- A CHUNK whose attribute text is cut. ----

  // In x='foo/ type=bar' the second word begins with the name type, so with it the end of the value is dropped.
  function CutAttributes(): Attributes
  {
    [("x", "foo/ type=bar")]
  }

  lemma CutText()
    ensures KeptText(CutAttributes()) == " x='foo/" && Escape(" x='foo/") == " x='foo/"
  {
    hide Runs, NamesType, Free, Escape, IsName, Pair, AttributesText, DropFirst;
    var (name, word, more) := ("x", "foo/", "type=bar");
    assert word + " " + more == "foo/ type=bar" && name + "='" + word == "x='foo/" && more + "'" == "type=bar'";
    CutWords();
    DropsSecond("x='foo/", "type=bar'");
    TextWords(CutAttributes());
    SpacedOne("x='foo/");
    EscapedStart();
  }

  lemma CutWords()
    ensures AllWords(CutAttributes()) == WordsOf(CutAttributes()[0]) == ["x='foo/", "type=bar'"]
    ensures !NamesType("x='foo/") && NamesType("type=bar'")
  {
    hide Runs, NamesType, Pair;
    var more := "type=bar";
    assert "foo/" + " " + more == "foo/ type=bar" && "x" + "='" + "foo/" == "x='foo/" && more + "'" == "type=bar'";
    FirstOfWords("x", "foo/", more);
    RunsOfOne("type=bar'", " ");
    assert ["x='foo/"] + ["type=bar'"] == ["x='foo/", "type=bar'"];
    assert CutAttributes()[1..] == [];
    assert AllWords(CutAttributes()) == WordsOf(CutAttributes()[0]) + AllWords(CutAttributes()[1..]);
    StartNamesType("x", "'foo/");
    StartNamesType("type", "bar'");
    assert "x" + "=" + "'foo/" == "x='foo/" && "type" + "=" + "bar'" == "type=bar'";
  }

  lemma DropsSecond(first: string, second: string)
    requires !NamesType(first) && NamesType(second)
    ensures DropFirst([first, second], "type") == [first]
  {
    hide NamesType, DropFirst;
    assert [first] + [second] == [first, second] && [second] + [] == [second];
    DropOne(first, [second]);
    DropOne(second, []);
  }

  lemma SpacedOne(word: string)
    ensures Spaced([word]) == " " + word
  {
    assert [word][..0] == [];
  }

  lemma EscapedStart()
    ensures Escape(" x='foo/") == " x='foo/"
  {
    hide EscapeFrom, EscapeBefore;
    EscapeSplit(None, " x=", "'foo/");
    PlainStays(None, " x=", "'foo/");
    EscapeSplit(Some('='), "'", "foo/");
    EscapeAlone(Some('\''), "foo/");
    PlainStays(Some('\''), "foo/", "");
    OneKept("foo/");
    assert " x=" + "'foo/" == " x='foo/" && "'" + "foo/" == "'foo/";
  }

  lemma OneKept(after: string)
    ensures EscapeBefore(Some('='), "'", after) == "'"
  {
    assert "'"[1..] == "";
  }

  // A value that does not end before the tag does cannot be read.
  lemma OpenValue(rest: string)
    requires Continues(rest)
    ensures ReadRest(" x='foo/" + (">\n" + rest)) == None
  {
    hide ReadAttribute, SkipSpaces;
    var s := "x='foo/" + (">\n" + rest);
    assert " x='foo/" + (">\n" + rest) == " " + s;
    NameStarts("x", "foo/" + (">\n" + rest));
    assert s == "x" + "='" + ("foo/" + (">\n" + rest));
    assert Spaces(1) == " ";
    SpacesSkipped(1, s);
    RestStep(" " + s);
    if ReadAttribute(s).Some? {
      var raw, later := AttributeWithin("x='foo/", rest);
      TwoQuotes(ReadAttribute(s).value.0.0 + "=", raw, later);
    }
  }

  lemma TwoQuotes(before: string, raw: string, later: string)
    ensures before + "'" + raw + "'" + later != "x='foo/"
  {
    var s := before + "'" + raw + "'" + later;
    assert s[|before|] == '\'' && s[|before| + 1 + |raw|] == '\'';
    assert forall i :: 0 <= i < 7 && i != 2 ==> "x='foo/"[i] != '\'';
  }

  lemma CutTag(lex: Lexicon, rest: string)
    requires IsProgram(lex) && FieldSafe(TypeOf(lex, CutAttributes())) && Continues(rest)
    ensures ReadTag(Print(OpenTag("CHUNK", ChunkText(lex, CutAttributes()))) + rest) == None
  {
    hide ReadTag, Print, Reads, ReadRest, IsName, FieldSafe, Field, Escape, KeptText, Attribute;
    var attributes := CutAttributes();
    var chunkType := TypeOf(lex, attributes);
    Names();
    ElementNames();
    CutHeads(lex);
    ReadsOne(lex, "ref", "");
    ReadsNext(lex, Field(lex, "ref", ""), [("ref", "")], true, "type", chunkType);
    var text := " " + (Field(lex, "ref", "") + " " + Field(lex, "type", chunkType));
    var tag := OpenTag("CHUNK", ChunkText(lex, attributes));
    hide IsProgram;
    OpenValue(rest);
    KeptBehind(Field(lex, "ref", ""), Field(lex, "type", chunkType), " x='foo/", End(tag) + rest);
    UnreadableTag(tag, text, [("ref", "")] + [("type", chunkType)], " x='foo/" + (">\n" + rest), rest);
  }

  lemma KeptBehind(ref: string, chunkType: string, kept: string, end: string)
    ensures " " + (ref + " " + chunkType + kept) + end == " " + (ref + " " + chunkType) + (kept + end)
  {
  }

  lemma CutHeads(lex: Lexicon)
    requires IsProgram(lex)
    ensures FieldSafe("") && Attribute(CutAttributes(), "ord") == ""
    ensures lex.escape(lex.allExceptOrdAndType(CutAttributes())) == " x='foo/"
  {
    hide Escape, KeptText;
    CutText();
    var attributes := CutAttributes();
    assert attributes[1..] == [];
    assert Except(attributes, "ord") == attributes;
    assert lex.allExceptOrdAndType(attributes) == KeptText(Except(attributes, "ord"));
    assert lex.escape(" x='foo/") == Escape(" x='foo/");
  }

  // A CHUNK with such an attribute: its last quote is dropped, and no reader gets past the tag.
  lemma ValueWithType(lex: Lexicon, t: ChunkTree)
    requires IsProgram(lex) && FieldSafe(TypeOf(lex, CutAttributes())) && t.attributes == CutAttributes()
    ensures !AllWellKept(CutAttributes())
    ensures ReadMarkup(PrintAll(SentenceTags(lex, SentenceTree([], false, [t])))) == None
  {
    hide ReadTag, IsProgram, FieldSafe, NodeTags, ChunksTags, ChunkText, SentenceText, Print, ReadMarkup, Tells, TypeOf;
    hide AllWellKept, KeptText;
    var sentence, chunk := OpenTag("SENTENCE", SentenceText(lex, [])), OpenTag("CHUNK", ChunkText(lex, t.attributes));
    var later := NodeTags(lex, t.node) + ChunksTags(lex, t.chunks) + [CloseTag("CHUNK")] + [CloseTag("SENTENCE")];
    OneChunkTags(lex, t);
    assert SentenceTags(lex, SentenceTree([], false, [t])) == [sentence] + ([chunk] + later);
    FirstPrinted(chunk, later);
    PrintContinues(later, "");
    assert PrintAll(later) + "" == PrintAll(later);
    CutTag(lex, PrintAll(later));
    PrintStarts(chunk, PrintAll(later));
    MarkupStep(PrintAll([chunk] + later));
    SentenceStarts(lex);
    OneBeforeOther(sentence, StartTag("SENTENCE", [("ref", "")]), [chunk] + later);
    NotWellKept();
  }

  lemma OneChunkTags(lex: Lexicon, t: ChunkTree)
    ensures ChunksTags(lex, [t])
      == [OpenTag("CHUNK", ChunkText(lex, t.attributes))]
         + (NodeTags(lex, t.node) + ChunksTags(lex, t.chunks) + [CloseTag("CHUNK")])
  {
    hide NodeTags, ChunkText;
    assert [t][1..] == [];
    assert ChunksTags(lex, []) == [];
  }

  lemma SentenceStarts(lex: Lexicon)
    requires IsProgram(lex)
    ensures Tells([OpenTag("SENTENCE", SentenceText(lex, []))], [StartTag("SENTENCE", [("ref", "")])], true)
  {
    hide Tells, IsProgram, SentenceText;
    SentenceHeadTells(lex, []);
    assert [("ref", "")] + [] == [("ref", "")];
  }

  lemma NotWellKept()
    ensures !AllWellKept(CutAttributes())
  {
    hide NamesType, WordsOf, AllWords;
    CutWords();
    var attributes := CutAttributes();
    assert WordsOf(attributes[0])[1] == "type=bar'" && NamesType(WordsOf(attributes[0])[1]);
    assert MentionsType(attributes[0]);
    assert !WellKept(attributes, 0);
  }
}
