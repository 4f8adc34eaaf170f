// The NODE printed for plain dictionary entries, from the dictionary's answer to what a reader of the markup
// sees (squoia_xfer_lex.cc).
module PlainAnswers {
  import opened Options
  import opened Strings
  import opened Tokens
  import opened TransferGrammar
  import opened Escaping
  import opened AttributeText
  import opened EntrySenses
  import opened Disambiguation
  import opened Markup
  import opened PrintedValues
  import opened ProgramLexicon
  import opened PrintedTranslations
  import opened PrintedTransfer
  import Alternatives
  import SenseOrder

  // ---- The answer. ----

  // Entries whose senses count up from 0 or 1.
  ghost predicate InSenseOrder(entries: seq<DictEntry>)
  {
    && entries != [] && PlainEntries(entries) && 0 <= SenseOfEntry(entries[0]) <= 1
    && forall k :: 0 <= k < |entries| ==> SenseOfEntry(entries[k]) == SenseOfEntry(entries[0]) + k
  }

  // The same entries in some order.
  ghost predicate Lists(given: seq<DictEntry>, entries: seq<DictEntry>)
  {
    (forall e :: e in given <==> e in entries) && forall i, j :: 0 <= i < j < |given| ==> given[i] != given[j]
  }

  lemma EntryPairs(e: DictEntry)
    requires PlainEntry(e)
    ensures ReadableText(EntryText(e.lem, e.pairs)) && DictPairs(EntryText(e.lem, e.pairs)) == AllPairs(e)
  {
    hide Runs, EntryText, PlainPair, Free;
    EntryIsPrinted(e);
    EntryTextReads(e.lem, e.pairs);
    var tokens := Runs(EntryText(e.lem, e.pairs), "<");
    forall i | 0 <= i < |e.pairs|
      ensures ReadablePart(PairTexts(e.pairs)[i]) && PartPair(PairTexts(e.pairs)[i]) == e.pairs[i]
    {
      assert PlainPair(e.pairs[i]);
      PairTextReads(e.pairs[i]);
    }
    assert PartPairs(PairTexts(e.pairs)) == e.pairs;
    if e.lem != "" {
      assert tokens == [e.lem] + PairTexts(e.pairs) && tokens[1..] == PairTexts(e.pairs);
    } else {
      assert tokens == PairTexts(e.pairs);
    }
  }

  // Where an entry of the list stands in the order.
  lemma PlaceOf(given: seq<DictEntry>, entries: seq<DictEntry>, i: nat) returns (p: nat)
    requires InSenseOrder(entries) && Lists(given, entries) && i < |given|
    ensures p < |entries| && given[i] == entries[p] && PlainEntry(given[i])
    ensures SenseOfEntry(given[i]) == SenseOfEntry(entries[0]) + p
  {
    hide PlainEntry, SenseOfEntry;
    assert given[i] in entries;
    p :| 0 <= p < |entries| && given[i] == entries[p];
  }

  lemma FirstOf(entries: seq<DictEntry>)
    requires InSenseOrder(entries)
    ensures entries != [] && entries[0] in entries && SenseOfEntry(entries[0]) >= 0 && PlainEntries(entries)
  {
  }

  lemma ListSenses(given: seq<DictEntry>, entries: seq<DictEntry>)
    requires InSenseOrder(entries) && Lists(given, entries)
    ensures PlainEntries(given) && NoNegativeSense(given) && SenseOrder.Distinct(Senses(given))
    ensures given != [] && forall i :: 0 <= i < |given| ==> SenseOfEntry(given[i]) >= SenseOfEntry(entries[0])
  {
    hide PlainEntry, SenseOfEntry, InSenseOrder;
    FirstOf(entries);
    forall i | 0 <= i < |given|
      ensures PlainEntry(given[i]) && SenseOfEntry(given[i]) >= SenseOfEntry(entries[0])
    {
      var p := PlaceOf(given, entries, i);
    }
    forall i, j | 0 <= i < j < |given|
      ensures SenseOfEntry(given[i]) != SenseOfEntry(given[j])
    {
      var p := PlaceOf(given, entries, i);
      var q := PlaceOf(given, entries, j);
    }
  }

  lemma BaseOfList(given: seq<DictEntry>, entries: seq<DictEntry>)
    requires InSenseOrder(entries) && Lists(given, entries) && NoNegativeSense(given)
    requires forall i :: 0 <= i < |given| ==> SenseOfEntry(given[i]) >= SenseOfEntry(entries[0])
    ensures SenseOrder.Base(Senses(given)) == SenseOfEntry(entries[0])
  {
    hide PlainEntry, SenseOfEntry, PlainEntries;
    assert entries[0] in given;
    var i :| 0 <= i < |given| && given[i] == entries[0];
    assert Senses(given)[i] == SenseOfEntry(entries[0]);
  }

  // ---- Its translations. ----

  lemma AnswerIsAnswer(given: seq<DictEntry>)
    requires given != [] && PlainEntries(given) && NoNegativeSense(given)
    ensures IsAnswer(Answer(given)) && Alternatives.Scan("", Answer(given)) == Texts(given)
    ensures SensesOf(Answer(given)) == Senses(given)
  {
    hide Alternatives.Scan, PlainEntries, DictText, SenseOrder.SenseOf, SenseOfEntry, ReadableText, EntryText, Answer;
    AnswerSplits(given);
    SensesAreRead(given);
    var texts := Texts(given);
    forall k | 0 <= k < |texts|
      ensures SenseOrder.SenseOf(DictText(texts[k])) == Senses(given)[k]
    {
      assert DictTexts(texts)[k] == DictText(texts[k]);
    }
  }

  // With distinct senses the entry in a slot is the one with that sense.
  lemma OccupantIs(senses: seq<nat>, i: nat)
    requires i < |senses| && SenseOrder.Distinct(senses)
    ensures SenseOrder.Base(senses) <= senses[i]
    ensures SenseOrder.Occupant(senses, senses[i] - SenseOrder.Base(senses)) == Some(i)
  {
    hide SenseOrder.Occupant, SenseOrder.Slot, SenseOrder.Ordered;
    var blanks := seq(|senses|, k => "");
    SenseOrder.SurvivesIffLast(blanks, senses, i);
    SenseOrder.DistinctSlot(senses, i);
    forall j: nat | i < j < |senses|
      ensures SenseOrder.Slot(senses, j) != SenseOrder.Slot(senses, i)
    {
      SenseOrder.DistinctSlot(senses, j);
    }
  }

  lemma IndexOf(given: seq<DictEntry>, entries: seq<DictEntry>, p: nat) returns (i: nat)
    requires InSenseOrder(entries) && Lists(given, entries) && NoNegativeSense(given) && p < |entries|
    ensures i < |given| && given[i] == entries[p] && Senses(given)[i] == SenseOfEntry(entries[0]) + p
  {
    hide PlainEntry, SenseOfEntry, PlainEntries;
    assert entries[p] in given;
    i :| 0 <= i < |given| && given[i] == entries[p];
  }

  lemma LengthIs(given: seq<DictEntry>, entries: seq<DictEntry>, texts: seq<string>)
    requires InSenseOrder(entries) && Lists(given, entries) && NoNegativeSense(given) && |texts| == |given|
    requires SenseOrder.Distinct(Senses(given)) && SenseOrder.Base(Senses(given)) == SenseOfEntry(entries[0])
    ensures |SenseOrder.Ordered(texts, Senses(given))| == |entries|
  {
    hide PlainEntry, SenseOfEntry, PlainEntries, SenseOrder.Ordered, SenseOrder.Distinct, SenseOrder.Base;
    var senses := Senses(given);
    SenseOrder.DistinctSensesAreIndexes(texts, senses);
    var ordered := SenseOrder.Ordered(texts, senses);
    var last := IndexOf(given, entries, |entries| - 1);
    var i :| 0 <= i < |senses| && senses[i] == |ordered| - 1 + SenseOrder.Base(senses);
    var p := PlaceOf(given, entries, i);
  }

  lemma SlotHolds(given: seq<DictEntry>, entries: seq<DictEntry>, p: nat)
    requires InSenseOrder(entries) && Lists(given, entries) && NoNegativeSense(given) && p < |entries|
    requires SenseOrder.Distinct(Senses(given)) && SenseOrder.Base(Senses(given)) == SenseOfEntry(entries[0])
    ensures var i := SenseOrder.Occupant(Senses(given), p);
      i.Some? && i.value < |given| && given[i.value] == entries[p] && PlainEntry(given[i.value])
  {
    hide InSenseOrder, Lists, PlainEntry, SenseOfEntry, NoNegativeSense, SenseOrder.Distinct, SenseOrder.Occupant;
    var i := IndexOf(given, entries, p);
    OccupantIs(Senses(given), i);
    var q := PlaceOf(given, entries, i);
  }

  lemma TranslationsAre(given: seq<DictEntry>)
    requires given != [] && PlainEntries(given) && NoNegativeSense(given)
    ensures var pairs, senses := TranslationPairs(Some(Answer(given))), Senses(given);
      && AllReadable(Texts(given)) && |pairs| == |SenseOrder.Ordered(DictTexts(Texts(given)), senses)|
      && forall p: nat :: p < |pairs| ==>
        var i := SenseOrder.Occupant(senses, p);
        i.Some? && i.value < |given| ==> pairs[p] == DictPairs(Texts(given)[i.value])
  {
    hide Alternatives.Scan, PlainEntries, NoNegativeSense, DictText, SenseOfEntry, ReadableText, EntryText, Answer;
    hide SenseOrder.Ordered, SenseOrder.Occupant, IsAnswer, DictPairs;
    AnswerIsAnswer(given);
    assert IsAnswer(Answer(given)) ==> AllReadable(Alternatives.Scan("", Answer(given))) by {
      AnswerSplits(given);
    }
  }

  // Whatever the order in the answer, the translations are the entries in the order of their senses.
  lemma TranslationsInOrder(given: seq<DictEntry>, entries: seq<DictEntry>)
    requires InSenseOrder(entries) && Lists(given, entries)
    ensures given != [] && TranslationPairs(Some(Answer(given))) == InOrder(entries)
  {
    hide InSenseOrder, Lists, PlainEntries, NoNegativeSense, SenseOrder.Ordered, SenseOrder.Distinct, SenseOrder.Base;
    hide TranslationPairs, EntryText, DictText, DictPairs, AllPairs, SenseOrder.Occupant, Answer, PlainEntry;
    ListSenses(given, entries);
    BaseOfList(given, entries);
    TranslationsAre(given);
    LengthIs(given, entries, DictTexts(Texts(given)));
    forall p: nat | p < |entries|
      ensures TranslationPairs(Some(Answer(given)))[p] == AllPairs(entries[p])
    {
      SlotHolds(given, entries, p);
      EntryPairs(entries[p]);
    }
  }

  function InOrder(entries: seq<DictEntry>): seq<Attributes>
  {
    seq(|entries|, p requires 0 <= p < |entries| => AllPairs(entries[p]))
  }

  // ---- The NODE. ----

  // Neither marked as unknown, nor ambiguous, nor looked up by its form.
  ghost predicate IsPlainWord(attributes: Attributes)
  {
    var lem, mi := Attribute(attributes, "lem"), Attribute(attributes, "mi");
    Attribute(attributes, "unknown") == "" && '#' !in lem && !("Z" <= mi) && !("DN" <= mi)
  }

  lemma PlainLookUp(lex: Lexicon, pairs: Pairs, attributes: Attributes)
    requires IsPlainWord(attributes)
    ensures var lem, mi := Attribute(attributes, "lem"), Attribute(attributes, "mi");
      && LookUpNode(lex, attributes) == Some(LookUp(lex.translate(lem, mi), [], "", "", false))
      && LookUpPairs(pairs, attributes) == FoundPairs(pairs(lem, mi), [])
  {
    hide Attribute;
    var lem := Attribute(attributes, "lem");
    FindIs(lem, '#', 0, |lem|);
  }

  // The words of the entries can be names, and no name comes twice in a tag.
  ghost predicate NamesFit(lex: Lexicon, attributes: Attributes, entries: seq<DictEntry>)
    requires entries != []
  {
    && (forall i, k :: 0 <= i < |entries| && 0 <= k < |entries[i].pairs| ==> IsName(entries[i].pairs[k].0))
    && IsDistinct(BaseAttributes(lex, attributes) + AllPairs(entries[0]))
    && (|entries| > 1 ==> forall i :: 0 <= i < |entries| ==> IsDistinct(AllPairs(entries[i])))
  }

  // What is meant: the first entry, and all of them as synonyms when there are several.
  function PlainMarkup(lex: Lexicon, attributes: Attributes, entries: seq<DictEntry>): seq<Markup>
    requires entries != []
  {
    var mine := BaseAttributes(lex, attributes) + AllPairs(entries[0]);
    if |entries| == 1 then [EmptyElement("NODE", mine)]
    else [StartTag("NODE", mine)] + SynonymsMarkup(InOrder(entries)) + [EndTag("NODE")]
  }

  // No value of a plain entry can break a tag.
  lemma PlainPairsSafe(e: DictEntry)
    requires PlainEntry(e)
    ensures PairsSafe(AllPairs(e)) <==> forall k :: 0 <= k < |e.pairs| ==> IsName(e.pairs[k].0)
  {
    hide PlainEntry;
    var pairs := AllPairs(e);
    forall i | 0 <= i < |pairs|
      ensures FieldSafe(pairs[i].1)
    {
      PlainPairs(e, i);
      PlainIsSafe(pairs[i].1);
    }
    hide FieldSafe;
    assert IsName("lem");
    assert pairs[0] == ("lem", e.lem) && forall k :: 0 <= k < |e.pairs| ==> pairs[k + 1] == e.pairs[k];
    if PairsSafe(pairs) {
      forall k | 0 <= k < |e.pairs|
        ensures IsName(e.pairs[k].0)
      {
        assert IsName(pairs[k + 1].0);
      }
    }
  }

  lemma PlainIsSafe(value: string)
    requires Plain(value)
    ensures FieldSafe(value)
  {
    PlainFree(value);
  }

  // What the dictionary gives for the word: the entries, in order.
  ghost predicate Gives(lex: Lexicon, pairs: Pairs, attributes: Attributes, entries: seq<DictEntry>)
  {
    var lem, mi := Attribute(attributes, "lem"), Attribute(attributes, "mi");
    AreTexts(lex.translate(lem, mi), InOrder(entries)) && pairs(lem, mi) == InOrder(entries)
  }

  lemma PlainFound(lex: Lexicon, pairs: Pairs, attributes: Attributes, entries: seq<DictEntry>)
    requires IsPlainWord(attributes) && Gives(lex, pairs, attributes, entries) && entries != []
    ensures LookUpNode(lex, attributes).Some? && !Unknown(LookUpNode(lex, attributes).value)
    ensures var f, its := LookUpNode(lex, attributes).value, LookUpPairs(pairs, attributes);
      && |f.trad| == |entries| && f.trad2 == [] && !f.ambilem && its == FoundPairs(InOrder(entries), [])
      && Selected(f) == TextOf(AllPairs(entries[0])) && SelectedPairs(its) == AllPairs(entries[0])
  {
    hide Attribute, IsPlainWord, TextOf, LookUpNode, LookUpPairs;
    PlainLookUp(lex, pairs, attributes);
  }

  lemma PlainMeant(lex: Lexicon, pairs: Pairs, attributes: Attributes, entries: seq<DictEntry>)
    requires IsPlainWord(attributes) && Gives(lex, pairs, attributes, entries) && entries != []
    requires '\\' !in TextOf(AllPairs(entries[0]))
    ensures HeadAttributes(lex, pairs, attributes) == BaseAttributes(lex, attributes) + AllPairs(entries[0])
    ensures InsertedMarkup(lex, pairs, attributes) == if |entries| > 1 then SynonymsMarkup(InOrder(entries)) else []
    ensures HeadOr(lex, attributes).inserted == [] <==> |entries| == 1
  {
    hide Attribute, TextOf, LookUpNode, LookUpPairs, BaseAttributes, AllPairs, Gives, BaseText, Selected, SelectedPairs;
    hide InOrder, SynonymsMarkup;
    PlainFound(lex, pairs, attributes, entries);
    var base := BaseAttributes(lex, attributes);
    assert base + [] == base;
  }

  lemma PlainSafe(lex: Lexicon, pairs: Pairs, attributes: Attributes, entries: seq<DictEntry>)
    requires IsPlainWord(attributes) && Gives(lex, pairs, attributes, entries) && entries != []
    requires '\\' !in TextOf(AllPairs(entries[0]))
    ensures NodeHeadSafe(lex, pairs, attributes) <==>
      && BaseSafe(lex, attributes) && PairsSafe(AllPairs(entries[0]))
      && IsDistinct(BaseAttributes(lex, attributes) + AllPairs(entries[0]))
      && (|entries| > 1 ==> SynonymsSafe(InOrder(entries)))
  {
    hide Attribute, TextOf, LookUpNode, LookUpPairs, BaseAttributes, AllPairs, Gives, Selected, SelectedPairs;
    hide IsDistinct, BaseSafe, FieldSafe, HeadAttributes, PairsSafe, SynonymsSafe, InOrder;
    PlainFound(lex, pairs, attributes, entries);
    PlainMeant(lex, pairs, attributes, entries);
  }

  lemma PlainNames(lex: Lexicon, attributes: Attributes, entries: seq<DictEntry>)
    requires entries != [] && PlainEntries(entries)
    ensures NamesFit(lex, attributes, entries) <==>
      && PairsSafe(AllPairs(entries[0])) && IsDistinct(BaseAttributes(lex, attributes) + AllPairs(entries[0]))
      && (|entries| > 1 ==> SynonymsSafe(InOrder(entries)))
  {
    hide BaseAttributes, AllPairs, IsDistinct, PlainEntry, IsName, PairsSafe;
    forall i | 0 <= i < |entries|
      ensures PairsSafe(AllPairs(entries[i])) <==>
        forall k :: 0 <= k < |entries[i].pairs| ==> IsName(entries[i].pairs[k].0)
    {
      PlainPairsSafe(entries[i]);
    }
    SynonymsInOrder(entries);
    if NamesFit(lex, attributes, entries) {
      forall i | 0 <= i < |entries|
        ensures PairsSafe(AllPairs(entries[i]))
      {
        assert forall k :: 0 <= k < |entries[i].pairs| ==> IsName(entries[i].pairs[k].0);
      }
    }
  }

  lemma SynonymsInOrder(entries: seq<DictEntry>)
    ensures SynonymsSafe(InOrder(entries)) <==>
      forall i :: 0 <= i < |entries| ==> PairsSafe(AllPairs(entries[i])) && IsDistinct(AllPairs(entries[i]))
  {
    hide AllPairs, IsDistinct, PairsSafe;
    var pairs := InOrder(entries);
    assert forall i :: 0 <= i < |entries| ==>
      (SynonymSafe(pairs[i]) <==> PairsSafe(AllPairs(entries[i])) && IsDistinct(AllPairs(entries[i])));
  }

  // What is printed for it.
  function PlainTags(lex: Lexicon, attributes: Attributes, entries: seq<DictEntry>): seq<Tag>
    requires entries != []
  {
    var text := BaseText(lex, attributes) + " " + TextOf(AllPairs(entries[0]));
    var synonyms :=
      seq(|entries|, i requires 0 <= i < |entries| => EmptyTag("SYN", TextOf(AllPairs(entries[i])), true));
    if |entries| == 1 then [EmptyTag("NODE", text, false)] else [OpenTag("NODE", text)] + synonyms + [CloseTag("NODE")]
  }

  lemma PlainNodeTags(lex: Lexicon, pairs: Pairs, attributes: Attributes, entries: seq<DictEntry>)
    requires IsPlainWord(attributes) && Gives(lex, pairs, attributes, entries) && entries != []
    requires '\\' !in TextOf(AllPairs(entries[0]))
    ensures NodeTags(lex, EmptyNode(attributes)) == PlainTags(lex, attributes, entries)
  {
    hide Attribute, TextOf, BaseText, AllPairs;
    var lem, mi := Attribute(attributes, "lem"), Attribute(attributes, "mi");
    PlainLookUp(lex, pairs, attributes);
    hide IsPlainWord, LookUpNode;
    var trad := lex.translate(lem, mi);
    assert |trad| == |entries| && forall i :: 0 <= i < |trad| ==> trad[i] == TextOf(AllPairs(entries[i]));
    assert Synonyms(trad) + [] + [] == Synonyms(trad);
    assert Synonyms(trad)
      == seq(|entries|, i requires 0 <= i < |entries| => EmptyTag("SYN", TextOf(AllPairs(entries[i])), true));
  }

  lemma PlainNodeIsRead(lex: Lexicon, pairs: Pairs, attributes: Attributes, entries: seq<DictEntry>)
    requires IsProgram(lex) && Translates(lex, pairs)
    requires IsPlainWord(attributes) && Gives(lex, pairs, attributes, entries) && entries != [] && PlainEntries(entries)
    requires '\\' !in TextOf(AllPairs(entries[0]))
    ensures ReadMarkup(PrintAll(NodeTags(lex, EmptyNode(attributes)))) == Some(PlainMarkup(lex, attributes, entries))
      <==> BaseSafe(lex, attributes) && NamesFit(lex, attributes, entries)
  {
    hide IsPlainWord, PlainEntries, TextOf, AllPairs, ReadMarkup, NodeTags, BaseSafe, NamesFit, Tells, Gives;
    hide Translates, IsProgram, NodeHeadSafe, InsertedMarkup, HeadAttributes, HeadOr, BaseAttributes, SynonymsSafe;
    hide IsDistinct, PairsSafe;
    PlainMeant(lex, pairs, attributes, entries);
    PlainSafe(lex, pairs, attributes, entries);
    PlainNames(lex, attributes, entries);
    var t := EmptyNode(attributes);
    NodeTells(lex, pairs, t);
    TellsAll(NodeTags(lex, t), NodeMarkup(lex, pairs, t), NodeSafe(lex, pairs, t));
  }

  // The whole way for an unambiguous word: whatever the order in which the dictionary lists its entries, the
  // NODE is printed with the entry of least sense, and with all entries as synonyms in the order of their
  // senses when there are several. A reader sees just that if and only if none of the six values breaks the
  // tag and the names of the entries fit.
  lemma PlainNodeIsPrinted(dictionary: Dictionary, upperType: (string, string, string) -> string,
                           chunkFile: seq<string>, attributes: Attributes, given: seq<DictEntry>,
                           entries: seq<DictEntry>)
    requires IsPlainWord(attributes) && InSenseOrder(entries) && Lists(given, entries) && given != []
    requires dictionary(Attribute(attributes, "lem"), Attribute(attributes, "mi")) == Some(Answer(given))
    requires '\\' !in TextOf(AllPairs(entries[0]))
    ensures var lex := Program(dictionary, upperType, chunkFile);
      && NodeTags(lex, EmptyNode(attributes)) == PlainTags(lex, attributes, entries)
      && (ReadMarkup(PrintAll(PlainTags(lex, attributes, entries))) == Some(PlainMarkup(lex, attributes, entries))
          <==> BaseSafe(lex, attributes) && NamesFit(lex, attributes, entries))
  {
    hide IsPlainWord, InSenseOrder, Lists, Answer, TextOf, AllPairs, ReadMarkup, NodeTags, BaseSafe, NamesFit, Program;
    hide Translates, IsProgram, TranslationPairs, Attribute, PlainTags, PlainMarkup, PlainEntries, Gives, PairsOf;
    var lex, pairs := Program(dictionary, upperType, chunkFile), PairsOf(dictionary);
    ProgramIsProgram(dictionary, upperType, chunkFile);
    TranslationsInOrder(given, entries);
    FirstOf(entries);
    GivesIs(lex, dictionary, attributes, entries);
    PlainNodeTags(lex, pairs, attributes, entries);
    PlainNodeIsRead(lex, pairs, attributes, entries);
  }

  lemma GivesIs(lex: Lexicon, dictionary: Dictionary, attributes: Attributes, entries: seq<DictEntry>)
    requires Translates(lex, PairsOf(dictionary))
    requires TranslationPairs(dictionary(Attribute(attributes, "lem"), Attribute(attributes, "mi"))) == InOrder(entries)
    ensures Gives(lex, PairsOf(dictionary), attributes, entries)
  {
    hide AreTexts, TranslationPairs, Attribute;
  }
}
