// The lexicon of the lexical transfer as the program puts it together: write_xml, the bilingual dictionary
// through disambiguate, the attribute printers, split_multiattrib and the chunk types (squoia_xfer_lex.cc).
module ProgramLexicon {
  import opened Options
  import opened Tokens
  import opened TransferGrammar
  import opened Escaping
  import opened PrintedValues
  import opened KeptAttributes
  import opened AttributeText
  import opened Disambiguation
  import Alternatives
  import SenseOrder
  import MultiAttributes
  import LexInfo

  // ---- Translations. ----

  // What the transducer answers, None for an unknown word. The source indexes parts of it and uses the
  // senses as indexes, so the parts must be there and no sense negative.
  ghost predicate IsAnswer(full: string)
  {
    && AllReadable(Alternatives.Scan("", full))
    && forall k :: 0 <= k < |Alternatives.Scan("", full)| ==>
      SenseOrder.SenseOf(DictText(Alternatives.Scan("", full)[k])) >= 0
  }

  ghost function SensesOf(full: string): seq<nat>
    requires IsAnswer(full)
  {
    var texts := Alternatives.Scan("", full);
    seq(|texts|, k requires 0 <= k < |texts| => SenseOrder.SenseOf(DictText(texts[k])))
  }

  // get_translation: what disambiguate makes of the answer.
  ghost function Translations(answer: Option<string>): seq<string>
  {
    if answer.None? || !IsAnswer(answer.value) then []
    else SenseOrder.Ordered(DictTexts(Alternatives.Scan("", answer.value)), SensesOf(answer.value))
  }

  // disambiguate computes it.
  method Translate(full: string) returns (ordainak: seq<string>)
    requires IsAnswer(full)
    ensures ordainak == Translations(Some(full))
  {
    ordainak := Disambiguate(full, SensesOf(full));
  }

  // ---- The attributes of a translation. ----

  ghost function PartPair(part: string): (string, string)
    requires ReadablePart(part)
  {
    (Runs(part, ">")[0], Runs(part, ">")[1])
  }

  ghost function PartPairs(parts: seq<string>): Attributes
    requires forall i :: 0 <= i < |parts| ==> ReadablePart(parts[i])
  {
    seq(|parts|, i requires 0 <= i < |parts| => PartPair(parts[i]))
  }

  ghost function DictPairs(full: string): Attributes
    requires ReadableText(full)
  {
    var tokens := Runs(full, "<");
    if StartsWith(full, '<') then [("lem", "")] + PartPairs(tokens)
    else if tokens == [] then []
    else [("lem", tokens[0])] + PartPairs(tokens[1..])
  }

  // Attributes as get_dict_attributes prints them.
  function TextOf(pairs: Attributes): string
  {
    if pairs == [] then "" else Printed(pairs)[0] + Spaced(Printed(pairs)[1..])
  }

  lemma NoText()
    ensures TextOf([]) == ""
  {
  }

  lemma DictTextIsText(full: string)
    requires ReadableText(full)
    ensures DictText(full) == TextOf(DictPairs(full))
  {
    hide Escape, Spaced, Runs, PartPairs, PartTokens, ReadablePart, Printed;
    var tokens := Runs(full, "<");
    EscapeNothing();
    if StartsWith(full, '<') {
      assert tokens != [] ==> tokens == [tokens[0]] + tokens[1..];
      FirstAndParts("", tokens);
    } else if tokens != [] {
      FirstAndParts(tokens[0], tokens[1..]);
    }
  }

  lemma FirstAndParts(lem: string, parts: seq<string>)
    requires forall i :: 0 <= i < |parts| ==> ReadablePart(parts[i])
    ensures var printed := Printed([("lem", lem)] + PartPairs(parts));
      |printed| == 1 + |parts| && printed[0] == Pair("lem", Escape(lem)) && printed[1..] == PartTokens(parts)
  {
    hide Escape, Runs, ReadablePart;
  }

  // The attributes of each translation, in the same order; none for a blank.
  ghost function TranslationPairs(answer: Option<string>): seq<Attributes>
  {
    if answer.None? || !IsAnswer(answer.value) then []
    else
      var texts, senses := Alternatives.Scan("", answer.value), SensesOf(answer.value);
      seq(|Translations(answer)|, p requires 0 <= p =>
        var i := SenseOrder.Occupant(senses, p);
        if i.Some? && i.value < |texts| then DictPairs(texts[i.value]) else [])
  }

  lemma TranslationsAreTexts(answer: Option<string>)
    ensures |TranslationPairs(answer)| == |Translations(answer)|
    ensures forall p :: 0 <= p < |Translations(answer)| ==>
      Translations(answer)[p] == TextOf(TranslationPairs(answer)[p])
  {
    hide DictText, DictPairs, SenseOrder.SenseOf, SenseOrder.Occupant, SenseOrder.Ordered, Alternatives.Scan, TextOf;
    if answer.Some? && IsAnswer(answer.value) {
      NoText();
      var texts, senses := Alternatives.Scan("", answer.value), SensesOf(answer.value);
      SenseOrder.OrderedAt(DictTexts(texts), senses);
      forall p: nat | p < |Translations(answer)|
        ensures Translations(answer)[p] == TextOf(TranslationPairs(answer)[p])
      {
        var i := SenseOrder.Occupant(senses, p);
        if i.Some? && i.value < |texts| {
          DictTextIsText(texts[i.value]);
        }
      }
    }
  }

  // ---- The lexicon. ----

  // split_multiattrib; the source indexes the name and the value of every word.
  ghost function Parts(text: string): seq<string>
  {
    var tokens := Runs(text, " ");
    if MultiAttributes.Splittable(tokens) then
      seq(MultiAttributes.Width(tokens), j requires 0 <= j => MultiAttributes.Column(tokens, j))
    else []
  }

  // get_lexInfo for the chunk types.
  function ChunkType(types: map<string, string>, key: string): string
  {
    if key in types then types[key] else ""
  }

  type Dictionary = (string, string) -> Option<string>

  ghost function Program(dictionary: Dictionary, upperType: (string, string, string) -> string, chunkFile: seq<string>)
    : Lexicon
  {
    Lexicon(
      (word, mi) => Translations(dictionary(word, mi)),
      s => Escape(s),
      upperType,
      key => ChunkType(LexInfo.Table(chunkFile), key),
      s => Parts(s),
      a => AttributesText(Except(a, "ord")),
      a => KeptText(Except(a, "ord")))
  }

  // The chunk types are those of the last lines of the file that give them.
  lemma ChunkTypeIs(dictionary: Dictionary, upperType: (string, string, string) -> string, chunkFile: seq<string>,
                    key: string)
    ensures var chunkType := Program(dictionary, upperType, chunkFile).chunkType(key);
      && (forall i: nat :: LexInfo.IsLastLine(chunkFile, key, i) ==>
            chunkType == LexInfo.ParsedLine(chunkFile[i]).value.1)
      && ((forall i: nat :: !LexInfo.IsLastLine(chunkFile, key, i)) ==> chunkType == "")
  {
    hide LexInfo.Table, LexInfo.ParsedLine, LexInfo.IsLastLine;
    LexInfo.LastLineDecides(chunkFile, key);
  }

  // What the program's string functions are, whatever the dictionary.
  ghost predicate IsProgram(lex: Lexicon)
  {
    && (forall s :: lex.escape(s) == Escape(s))
    && (forall s :: lex.splitMulti(s) == Parts(s))
    && (forall a :: lex.allExceptOrd(a) == AttributesText(Except(a, "ord")))
    && (forall a :: lex.allExceptOrdAndType(a) == KeptText(Except(a, "ord")))
  }

  // The translations are the texts of these attributes.
  ghost predicate Translates(lex: Lexicon, pairs: (string, string) -> seq<Attributes>)
  {
    forall word, mi :: AreTexts(lex.translate(word, mi), pairs(word, mi))
  }

  ghost predicate AreTexts(texts: seq<string>, pairs: seq<Attributes>)
  {
    |texts| == |pairs| && forall p :: 0 <= p < |texts| ==> texts[p] == TextOf(pairs[p])
  }

  ghost function PairsOf(dictionary: Dictionary): (string, string) -> seq<Attributes>
  {
    (word, mi) => TranslationPairs(dictionary(word, mi))
  }

  lemma ProgramIsProgram(dictionary: Dictionary, upperType: (string, string, string) -> string, chunkFile: seq<string>)
    ensures IsProgram(Program(dictionary, upperType, chunkFile))
    ensures Translates(Program(dictionary, upperType, chunkFile), PairsOf(dictionary))
  {
    hide Translations, TranslationPairs, TextOf, Parts, KeptText, Except, AttributesText, Escape, ChunkType;
    forall word, mi
      ensures AreTexts(Translations(dictionary(word, mi)), TranslationPairs(dictionary(word, mi)))
    {
      TranslationsAreTexts(dictionary(word, mi));
    }
  }
}
