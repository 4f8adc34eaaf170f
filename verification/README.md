# SQUOIA: verified models of its algorithms and protocols

SQUOIA is a pipeline for machine translation from Spanish to Quechua and German, with spell checking and
treebank tools around it. These Dafny modules model the parts of it that decide something themselves instead
of handing it to a library, and prove what they keep, undo or produce for every input and every run.

| modules | part of SQUOIA |
|---|---|
| `TransferGrammar`, `TransferParsing`, `LexicalTransfer` | the recursive descent of the lexical transfer over the shared XML reader |
| `HeadTexts` | what it prints for the start of an element |
| `Markup`, `PrintedValues`, `KeptAttributes`, `PrintedTranslations`, `PrintedTransfer`, `PrintedExamples` | the text it prints, taken apart by a reader of tags and attributes |
| `ProgramLexicon`, `PlainAnswers` | its string functions and its dictionary put together, and the NODE printed for a plain answer |
| `Escaping`, `Alternatives`, `SenseOrder`, `EntrySenses`, `Disambiguation`, `Tokens`, `AttributeText`, `MultiAttributes`, `LexInfo` | the string algorithms around it |
| `Expansions`, `SentenceMatrix`, `Scores`, `SentenceReader`, `ScoredWords` | the lattice of alternative translations, its expansion and the n-best lists |
| `Compositions`, `LookupChain` | the spell checker's chain of transducers, searched by backtracking |
| `Framing`, `ClientServer`, `AnalyserOutput`, `WorkerSlots` | the FreeLing server: messages over sockets, client and worker in lockstep, the accounting of workers |
| `MaltServer`, `MaltConnections` | the MaltParser server and its client |
| `HeadForests`, `DependencyTrees` | the conversion of CoNLL files to trees |
| `CrfRows`, `NecRows` | the rows written for the CRF tagger and read by the named-entity classifier |
| `Hyphens` | the hyphenator of the spell checker plug-in |
| `Options`, `Strings`, `Numerals` | the optional value; searching in strings and joining them; decimal notation |

Code that changes state step by step is modelled by classes and methods with loops; each of them is proved
equal to a function of what it was given, and the lemmas are about those functions. The two protocols are step
systems whose steps interleave freely. Libraries enter as parameters: a transducer is a function from a string
to a finite list of results, the bilingual dictionary and the language model are arbitrary functions, the XML
reader is a sequence of events and a cursor, the reader of the printed text is that of XML tags as far as they are
printed here (a value ends at the next apostrophe and may hold `>` but not `<`), and libxml2's `appendChild` is
assumed only to move a node and to refuse to put it under itself or below.

What the proofs show about the code beyond its intent:

- `RootWordMistaken`: the id test of the tree builder is not anchored at its end, so word 12 of a sentence whose
  VROOT is number 1 is taken for VROOT, head 0 is looked up, and the program exits.
- `AllServedIff`: the MaltParser server takes a blank line where a sentence should begin for the end of the input.
  A doubled or leading blank line loses every block behind it (`DoubledBlankLosesABlock`, `LeadingBlankLosesAll`).
  With the flag down, an input that is otherwise served and whose last line is a word leaves the flag up, because
  the client's trailer closes the last sentence with its blank line and the marker is read with no tokens
  (`LeavesFlagUpIff`); a client that meets the flag up gets only its first block, and only if that is at the very
  start (`FlagUpLosesABlock`).
- `NothingIsLostIff`: the ordering by sense loses an entry exactly when two entries agree in their sense less the
  number of entries of sense 0 up to them, or 1 when there are none: the answer `a/b/c<sense>1` loses `a`
  (`TwoZerosLoseAnEntry`), `c<sense>1/a/b` loses nothing.
- `SentenceReadsBackIff`: a printed sentence is read as it was meant exactly when five things hold of the input and
  the translations. No value that is escaped alone has an apostrophe at its end, before a space or behind `=`, where
  `write_xml` keeps it: `lem="o'"` is printed as `slem='o''` (`QuoteAtTheEnd`). In the attributes of CHUNK and
  SENTENCE, which are escaped as one text, an apostrophe at the end of a value does no harm, but the other two places
  do. The lemmas of an ambiguous word that are printed as they are have no `<`, `&` or apostrophe (`BracketInLemma`); a
  `>` does no harm (`AngleIsHarmless`). In a CHUNK the value of `type` is one word, no other value has two spaces
  together, and none before `type` has a word that begins with that name, because the attribute text is cut at its
  spaces to drop `type`: of `x='foo/ type=bar'` only `x='foo/` is left (`ValueWithType`). And no tag has a name twice
  or a dictionary key that is no name.
- `SlashIsMistaken`: a slash as a punctuation mark (`/-PUNC-Fh`) is taken for an alternative of the word before it and
  scored as a hyphen, because the slash in front is cut before the tag.
- `LongRow`: of a row with more than eight pairs the ninth tag is taken for the class.
- `GetPossibleHyphens`: a word that lower-casing makes longer can make `insert` throw, as three letters U+0130 in
  front of `tsa` do (`LongerInLowerCase`).
- `SplitUndoesJoin`: an empty alternative between two slashes swallows the second slash.
- `AcceptsIff`: every child whose exit signal merges with another and every failed fork costs the FreeLing server
  one worker for good.
- `TagIsLastRead`: a row without class goes to the named-entity classifier with the class of an earlier row.
- `PrintedIsOutputs`: the client swallows an analysis that equals the acknowledgement text.
- The comment above `split_multiattrib` repeats a value that has a single part in every result; the code puts it
  only into the first one, and the model follows the code.

## Model

| member | source | states |
|---|---|---|
| `LexicalTransfer.ProcSentence` | MT_systems/matxin-lex/squoia_xfer_lex.cc:952-1000 | succeeds exactly when the events ahead start with a sentence of the grammar, prints the tags of that tree and leaves the cursor on the matching end of SENTENCE; terminates on every event stream |
| `LexicalTransfer.ProcChunk` | MT_systems/matxin-lex/squoia_xfer_lex.cc:866-946 | the same for CHUNK(NODE CHUNK*), through the shared cursor |
| `LexicalTransfer.ProcChunks` | MT_systems/matxin-lex/squoia_xfer_lex.cc:921-943 | the loop over nested chunks reads as many as there are and stops before the first event that starts none |
| `LexicalTransfer.ProcNode` | MT_systems/matxin-lex/squoia_xfer_lex.cc:661-861 | the same for NODE(NODE*), empty elements and start/end forms, with the synonym and multi-node children put in |
| `LexicalTransfer.ProcNodes` | MT_systems/matxin-lex/squoia_xfer_lex.cc:827-843 | the loop over nested nodes reads as many as there are |
| `LexicalTransfer.Reader.NextTag` | MT_systems/matxin-lex/squoia_xfer_lex.cc:290-304 | moves the cursor to the next event that is neither text nor document type, over nothing else, and reports whether there is one |
| `TransferParsing.SentenceAcceptance` | MT_systems/matxin-lex/squoia_xfer_lex.cc:949-1000 | the descent accepts a stream and returns a tree and a rest if and only if the stream is the spelling of that tree followed by the rest and no node makes the source exit |
| `TransferParsing.NodeSound` | MT_systems/matxin-lex/squoia_xfer_lex.cc:682-858 | what is accepted as a node is spelled exactly by the returned tree |
| `TransferParsing.NodeComplete` | MT_systems/matxin-lex/squoia_xfer_lex.cc:682-858 | every spelling of a node is accepted, whatever follows |
| `TransferParsing.ChunkSound` | MT_systems/matxin-lex/squoia_xfer_lex.cc:873-943 | what is accepted as a chunk is spelled exactly by the returned tree |
| `TransferParsing.ChunkComplete` | MT_systems/matxin-lex/squoia_xfer_lex.cc:873-943 | every spelling of a chunk is accepted, whatever follows |
| `TransferParsing.SentenceSkeleton` | MT_systems/matxin-lex/squoia_xfer_lex.cc:952-1000 | once the inserted SYN and NODE elements are erased, the output has the bracket structure of the input, element for element |
| `TransferParsing.SentenceNested` | MT_systems/matxin-lex/squoia_xfer_lex.cc:952-1000 | the tags of the output, inserted elements included, are well nested |
| `HeadTexts.AttributeIsCarried` | MT_systems/matxin-lex/squoia_xfer_lex.cc:306-319 | of distinct attributes the one with the name is found, wherever it stands, and the empty string when there is none |
| `HeadTexts.PlainNode` | MT_systems/matxin-lex/squoia_xfer_lex.cc:683-803 | an unambiguous word, or a number or date by its form: the six attributes in full, the first translation, all as synonyms when there are several, the parts of a multi-word one as nodes, or unknown as transfer |
| `HeadTexts.AmbiguousNode` | MT_systems/matxin-lex/squoia_xfer_lex.cc:720-789 | an ambiguous word: the first lemma with a translation gives it and is named in tradlem; the translations of each lemma are synonyms with that lemma, first those of the first, when there are several in all; unknown as transfer when neither has one |
| `HeadTexts.UnknownNode` | MT_systems/matxin-lex/squoia_xfer_lex.cc:696-699 | a word the input marks as unknown keeps its mark and is not looked up |
| `HeadTexts.NodeExitsIff` | MT_systems/matxin-lex/squoia_xfer_lex.cc:722-731 | the transfer fails at a NODE if and only if its lemma is looked at and ends at its first hash sign |
| `HeadTexts.ChunkStart` | MT_systems/matxin-lex/squoia_xfer_lex.cc:876-918 | the start of a CHUNK: ref, the type from the table or as it was, si without one, and the other attributes; the node, the nested chunks and the end follow |
| `HeadTexts.SentenceStart` | MT_systems/matxin-lex/squoia_xfer_lex.cc:952-963 | the start of a SENTENCE: ref and the other attributes |
| `PrintedTransfer.SentenceReadsBackIff` | MT_systems/matxin-lex/squoia_xfer_lex.cc:661-1000 | a reader takes the printed sentence tag by tag and attribute by attribute as it was meant if and only if the attribute values of the input, the lemmas printed as they are and the translations are safe; what is meant is well nested |
| `PrintedTransfer.NodeTells` | MT_systems/matxin-lex/squoia_xfer_lex.cc:661-861 | the same for a NODE with its synonyms, parts and nested nodes, in front of any text that follows |
| `PrintedTransfer.NodeHeadSafeIff` | MT_systems/matxin-lex/squoia_xfer_lex.cc:637-651 | the parts of a multi-word translation can be read when the translation can, but for their names |
| `PrintedTransfer.ChunkHeadTells` | MT_systems/matxin-lex/squoia_xfer_lex.cc:866-918 | the start of a CHUNK is read as ref, type and the other attributes if and only if ord and the type are safe, the others are well kept and no name comes twice |
| `PrintedTransfer.SentenceHeadTells` | MT_systems/matxin-lex/squoia_xfer_lex.cc:952-963 | the start of a SENTENCE is read as ref and the other attributes if and only if they are safe and no name comes twice |
| `PrintedExamples.QuoteAtTheEnd` | MT_systems/matxin-lex/squoia_xfer_lex.cc:392-399 | a lemma that ends in an apostrophe is printed so that the sentence cannot be read |
| `PrintedExamples.BracketInLemma` | MT_systems/matxin-lex/squoia_xfer_lex.cc:767-777 | an ambiguous lemma with a < and a translation is printed so that the sentence cannot be read |
| `PrintedExamples.ValueWithType` | MT_systems/matxin-lex/squoia_xfer_lex.cc:359-376 | a CHUNK attribute with a word that begins with the name type is printed so that the sentence cannot be read |
| `PrintedExamples.AngleIsHarmless` | MT_systems/matxin-lex/squoia_xfer_lex.cc:767-777 | a lemma with a > that is printed as it is is read back |
| `PrintedValues.FieldQuoteIff` | MT_systems/matxin-lex/squoia_xfer_lex.cc:392-399 | an apostrophe is left by write_xml if and only if the string has one at its end, before a space or behind = |
| `PrintedValues.FieldIsRead` | MT_systems/matxin-lex/squoia_xfer_lex.cc:378-411 | an attribute whose value is escaped alone is read back if and only if there is none |
| `PrintedValues.ListedQuoteIff` | MT_systems/matxin-lex/squoia_xfer_lex.cc:392-399 | inside an attribute text that is escaped as a whole only the apostrophes of a value before a space or behind = are left |
| `PrintedValues.ReadsListed` | MT_systems/matxin-lex/squoia_xfer_lex.cc:340-356 | such a text is read as its attributes if and only if no value has one there |
| `PrintedValues.RawIsRead` | MT_systems/matxin-lex/squoia_xfer_lex.cc:522-530 | an attribute whose value is printed as it is is read back if and only if the value has no apostrophe, < or & |
| `Markup.PieceIsRead` | MT_systems/matxin-lex/squoia_xfer_lex.cc:744-746 | an attribute is taken by the reader as it was meant if and only if it is readable, whatever follows |
| `KeptAttributes.KeptIff` | MT_systems/matxin-lex/squoia_xfer_lex.cc:359-376 | cutting the attribute text at its spaces and dropping the first word named type leaves the text of the other attributes, readable, if and only if type is one word, the others have single spaces and no apostrophe at a boundary, and none before type has a word that begins with that name |
| `PrintedTransfer.ReadsKept` | MT_systems/matxin-lex/squoia_xfer_lex.cc:359-376 | what is left is read as the other attributes if and only if that holds |
| `PrintedTranslations.ReadsText` | MT_systems/matxin-lex/squoia_xfer_lex.cc:484-520 | the printed text of a translation is read as its pairs if and only if its keys are names and no value has an apostrophe at the end or at a boundary |
| `PrintedTranslations.CellsAreRead` | MT_systems/matxin-lex/squoia_xfer_lex.cc:231-261 | cutting a text that can be read at spaces, =, apostrophes and backslashes leaves parts that can be read |
| `ProgramLexicon.Translate` | MT_systems/matxin-lex/squoia_xfer_lex.cc:582-628 | the translations of an answer are its alternatives, printed and ordered by sense |
| `ProgramLexicon.TranslationsAreTexts` | MT_systems/matxin-lex/squoia_xfer_lex.cc:608-628 | each translation is the printed text of the pairs of one entry of the answer, or blank |
| `ProgramLexicon.ChunkTypeIs` | MT_systems/matxin-lex/squoia_xfer_lex.cc:155-163 | the type of a chunk is the value on the last line of the file that gives the key, and empty when none does |
| `ProgramLexicon.ProgramIsProgram` | MT_systems/matxin-lex/squoia_xfer_lex.cc:608-628 | the lexicon made of write_xml, the dictionary, the attribute printers and split_multiattrib has what the theorems about printed text ask for, whatever the dictionary |
| `PlainAnswers.TranslationsInOrder` | MT_systems/matxin-lex/squoia_xfer_lex.cc:542-628 | the translations of an answer that lists entries in any order are the entries in the order of their senses |
| `PlainAnswers.PlainNodeIsPrinted` | MT_systems/matxin-lex/squoia_xfer_lex.cc:661-861 | for an unambiguous word, from the answer of the dictionary to the reader: the NODE is printed with the entry of least sense, all entries being synonyms in the order of their senses when there are several, and read so if and only if no value breaks the tag and the keys fit as names |
| `Escaping.WriteXml` | MT_systems/matxin-lex/squoia_xfer_lex.cc:378-411 | the five in-place replacement passes terminate and equal one left-to-right substitution of each character, apostrophes depending on their neighbours; the character in front of the string matters only when it starts with one |
| `Escaping.ReplaceAmpersands` | MT_systems/matxin-lex/squoia_xfer_lex.cc:380-385 | the first pass replaces every ampersand once although each replacement contains one |
| `Escaping.ReplaceUntilGone` | MT_systems/matxin-lex/squoia_xfer_lex.cc:387-390 | a search-and-replace loop from the start ends and has replaced every occurrence |
| `Escaping.ReplaceApostrophes` | MT_systems/matxin-lex/squoia_xfer_lex.cc:392-399 | the apostrophe pass decides by the neighbours in the string as changed so far, and that equals deciding by the string as it came |
| `Escaping.PassesAreSubstitution` | MT_systems/matxin-lex/squoia_xfer_lex.cc:378-411 | the five passes composed are the character substitution; the neighbours seen by the third pass give the same verdict as the original ones |
| `Escaping.DecodeEscape` | MT_systems/matxin-lex/squoia_xfer_lex.cc:378-411 | decoding the predefined entities gives the input back |
| `Escaping.EscapedIsClean` | MT_systems/matxin-lex/squoia_xfer_lex.cc:378-411 | the result has no raw quote or angle bracket, and every ampersand in it starts an entity |
| `SenseOrder.OrderOrdainak` | MT_systems/matxin-lex/squoia_xfer_lex.cc:542-575 | the loop of front insertions, resizes and assignments gives the vector in which each slot holds the last entry whose final slot it is, later front insertions counted in, and blanks elsewhere |
| `SenseOrder.NumberIsRead` | MT_systems/matxin-lex/squoia_xfer_lex.cc:554-556 | a sense in decimal notation is read as that number, with white space and a sign in front and anything that is no digit behind |
| `SenseOrder.SurvivesIffLast` | MT_systems/matxin-lex/squoia_xfer_lex.cc:549-572 | an entry is in the result at its final slot if and only if no later entry has the same final slot |
| `SenseOrder.SlotIsKey` | MT_systems/matxin-lex/squoia_xfer_lex.cc:559-571 | the final slot of entry k is the number of entries of sense 0, plus its sense, less the number of those up to k or 1 when there are none |
| `SenseOrder.AllSurviveIff` | MT_systems/matxin-lex/squoia_xfer_lex.cc:542-575 | every entry has a slot of its own in the result if and only if the senses less those numbers are pairwise distinct |
| `SenseOrder.NothingIsLostIff` | MT_systems/matxin-lex/squoia_xfer_lex.cc:542-575 | the result is the entries and blanks if and only if those differences are pairwise distinct; otherwise an entry is missing from it |
| `SenseOrder.DistinctSlot` | MT_systems/matxin-lex/squoia_xfer_lex.cc:559-571 | with distinct senses the final slot is the sense, or one less when no entry has sense 0, whatever the input order |
| `SenseOrder.DistinctSensesAreIndexes` | MT_systems/matxin-lex/squoia_xfer_lex.cc:542-575 | with distinct senses nothing is lost, every entry is at the index its sense gives, the last slot is used and all others are blank |
| `SenseOrder.OrderIrrelevant` | MT_systems/matxin-lex/squoia_xfer_lex.cc:542-575 | with distinct senses the result does not depend on the order of the input |
| `SenseOrder.AllZeroReverses` | MT_systems/matxin-lex/squoia_xfer_lex.cc:559-563 | when every sense is 0 the input comes out reversed |
| `Disambiguation.TwoZerosLoseAnEntry` | MT_systems/matxin-lex/squoia_xfer_lex.cc:542-605 | the answer a/b/c<sense>1 has senses 0, 0 and 1, and a is missing from the result |
| `Disambiguation.TwoZerosBehindLoseNothing` | MT_systems/matxin-lex/squoia_xfer_lex.cc:542-605 | the answer c<sense>1/a/b has senses 1, 0 and 0, and nothing is missing |
| `Alternatives.SplitAlternatives` | MT_systems/matxin-lex/squoia_xfer_lex.cc:584-601 | the loop that cuts at slashes and erases backslashes from the string it scans, restarting its index, ends and gives the scan specified character by character |
| `Alternatives.SplitUndoesJoin` | MT_systems/matxin-lex/squoia_xfer_lex.cc:582-601 | splitting gives back escaped alternatives joined by slashes if and only if every alternative between the first and the last is non-empty |
| `Alternatives.MiddleAlternative` | MT_systems/matxin-lex/squoia_xfer_lex.cc:591-599 | an empty alternative behind a slash swallows the next slash |
| `Disambiguation.Disambiguate` | MT_systems/matxin-lex/squoia_xfer_lex.cc:582-605 | splitting, printing as attributes and ordering by sense, composed |
| `EntrySenses.SenseIsRead` | MT_systems/matxin-lex/squoia_xfer_lex.cc:551-557 | the sense read from the printed text of an entry is the number in its first key named sense, and 0 when there is none |
| `Disambiguation.EntriesAreLookedUp` | MT_systems/matxin-lex/squoia_xfer_lex.cc:489-605 | entries whose senses are distinct, escaped and joined, then split, printed and ordered, stand where their senses say, and each attribute is looked up as it was in its entry |
| `Tokens.Tokenize` | MT_systems/matxin-lex/squoia_xfer_lex.cc:191-209 | the find loop collects the runs of characters that are no delimiters |
| `Tokens.CutsAreRuns` | MT_systems/matxin-lex/squoia_xfer_lex.cc:191-209 | any way to cut the string into non-empty delimiter-free pieces kept apart by non-empty gaps has those runs as its pieces: they are maximal and unique |
| `Tokens.RunsAreACut` | MT_systems/matxin-lex/squoia_xfer_lex.cc:191-209 | the runs are such a cut of the string |
| `Tokens.Tokenize2` | MT_systems/matxin-lex/squoia_xfer_lex.cc:211-229 | the find loop gives the string without its delimiters |
| `Tokens.RunsAreFree` | MT_systems/matxin-lex/squoia_xfer_lex.cc:191-229 | the runs concatenated are the string without its delimiters |
| `AttributeText.TextAttrib` | MT_systems/matxin-lex/squoia_xfer_lex.cc:413-432 | finds the first attribute of a name and removes the quotes of its value |
| `AttributeText.TextAllAttribExcept` | MT_systems/matxin-lex/squoia_xfer_lex.cc:359-376 | erases the first attribute of a name from the list and prints the rest |
| `AttributeText.ExceptChangesNoOther` | MT_systems/matxin-lex/squoia_xfer_lex.cc:359-376 | that printed text tokenizes to the attributes without the erased one, and every other look-up in it is unchanged |
| `AttributeText.V2S` | MT_systems/matxin-lex/squoia_xfer_lex.cc:263-271 | prints the tokens with a space before each |
| `AttributeText.SpacedReadsBack` | MT_systems/matxin-lex/squoia_xfer_lex.cc:263-271 | tokens printed by v2s are tokenized back |
| `AttributeText.GetDictAttributes` | MT_systems/matxin-lex/squoia_xfer_lex.cc:489-520 | prints the lemma and every key and value, escaped, and an empty lemma for an entry that starts with a key |
| `AttributeText.EntryIsPrinted` | MT_systems/matxin-lex/squoia_xfer_lex.cc:484-520 | an entry with a lemma and keys is printed as its pairs in order, the lemma first |
| `AttributeText.DictionaryRoundTrip` | MT_systems/matxin-lex/squoia_xfer_lex.cc:413-520 | looking a name up in the printed entry gives the escaped value of the first key of that name, and nothing when there is none |
| `MultiAttributes.SplitMultiattrib` | MT_systems/matxin-lex/squoia_xfer_lex.cc:231-261 | the appended and resized vector is the ragged transpose: as many strings as the longest value has parts, string j concatenating in order the attributes with more than j parts |
| `MultiAttributes.PartsAreConserved` | MT_systems/matxin-lex/squoia_xfer_lex.cc:248-257 | the transposed vector holds as many attributes as all values have parts together: none is lost or duplicated |
| `MultiAttributes.CellsAreParts` | MT_systems/matxin-lex/squoia_xfer_lex.cc:231-261 | a name and a part are in string j if and only if part j of an attribute of that name is it |
| `MultiAttributes.ColumnReadsBack` | MT_systems/matxin-lex/squoia_xfer_lex.cc:231-261 | tokenizing string j gives back its attributes |
| `MultiAttributes.ColumnLookup` | MT_systems/matxin-lex/squoia_xfer_lex.cc:231-261 | looking a name up in string j gives part j of the first attribute of that name with more than j parts |
| `LexInfo.CleanLine` | MT_systems/matxin-lex/squoia_xfer_lex.cc:124-140 | the whitespace loop with erase and i-- terminates and squeezes runs of blanks; one trailing blank is cut |
| `LexInfo.SqueezedIsClean` | MT_systems/matxin-lex/squoia_xfer_lex.cc:124-140 | the squeezed line starts with no blank and never has two blanks together, so at most one is left to cut at the end |
| `LexInfo.InitLexInfo` | MT_systems/matxin-lex/squoia_xfer_lex.cc:109-152 | the table maps each key to the value of its last line, comments removed |
| `LexInfo.LastLineDecides` | MT_systems/matxin-lex/squoia_xfer_lex.cc:109-152 | the table has the keys that some line gives, each with the value of the last such line |
| `LexInfo.LineReadsBack` | MT_systems/matxin-lex/squoia_xfer_lex.cc:117-148 | a line of a key and a value, with any blanks around them and any comment, gives that pair, and nothing when the separator is empty or a lone space |
| `SentenceReader.Reader.ReadInput` | MT_systems/squoia/esqu/outputSentences.cpp:128-174 | each closed sentence of the input gets one n-best list over the lattice its words group into |
| `SentenceReader.OneSentence` | MT_systems/squoia/esqu/outputSentences.cpp:128-171 | a sentence is the words of the lines before one that contains the end sign, empty lines left out, tabs and newlines erased, and the next begins behind it |
| `SentenceReader.AlternativeIff` | MT_systems/squoia/esqu/outputSentences.cpp:156-159 | a word is an alternative if and only if it is a slash and something more |
| `SentenceReader.Reader.StoreWord` | MT_systems/squoia/esqu/outputSentences.cpp:147-171 | a word line keeps the lattice equal to the grouping of the words so far, and the counter equal to the product of the sizes of the closed columns |
| `SentenceReader.Reader.CloseSentence` | MT_systems/squoia/esqu/outputSentences.cpp:132-143 | at the end of a sentence the counter becomes the product over all columns, and lattice and row counter are cleared |
| `SentenceReader.GroupIsGrouping` | MT_systems/squoia/esqu/outputSentences.cpp:147-171 | the columns concatenate to the words, alternatives never open a column but the first, and other words always do |
| `SentenceReader.GroupingIsUnique` | MT_systems/squoia/esqu/outputSentences.cpp:147-171 | there is only one such grouping |
| `SentenceReader.CountSnoc` | MT_systems/squoia/esqu/outputSentences.cpp:164-168 | multiplying in the size of a column when it is closed gives the product over the lattice |
| `SentenceMatrix.LatticePrinter.InsertTransOpts` | MT_systems/squoia/esqu/outputSentences.cpp:653-679 | the recursion advances the row counter by the product of the alternatives from first to last and writes exactly those rows and columns, in mixed-radix order |
| `SentenceMatrix.LatticePrinter.FillColumn` | MT_systems/squoia/esqu/outputSentences.cpp:665-668 | the back-filling loop writes one column of the rows added since and nothing else |
| `SentenceMatrix.LatticePrinter.BuildMatrix` | MT_systems/squoia/esqu/outputSentences.cpp:682-714 | the matrix has exactly the row keys 0 to N-1 and in each row exactly the column keys of the words, row r being sentence r of the lattice; no placeholder survives and the row counter is 0 again |
| `SentenceMatrix.StampAt` | MT_systems/squoia/esqu/outputSentences.cpp:653-679 | which rows an insertion touches and which it leaves alone |
| `SentenceMatrix.InsertionCompletes` | MT_systems/squoia/esqu/outputSentences.cpp:688-710 | inserting the ambiguous words into the prefilled rows completes every row |
| `Expansions.ExpandIsMerge` | MT_systems/squoia/esqu/outputSentences.cpp:682-710 | enumerating only the ambiguous columns over prefilled rows gives every sentence of the lattice, in the same order |
| `Expansions.ExpandLength` | MT_systems/squoia/esqu/outputSentences.cpp:126-172 | the number of rows is the product of the column sizes |
| `Expansions.PathIsRow` | MT_systems/squoia/esqu/outputSentences.cpp:653-679 | the row at the mixed-radix value of a path is the sentence the path picks |
| `Expansions.RowIsPath` | MT_systems/squoia/esqu/outputSentences.cpp:653-679 | every row number is the value of a path |
| `Expansions.PathsDoNotCollide` | MT_systems/squoia/esqu/outputSentences.cpp:653-679 | different paths have different rows |
| `Scores.ScoreRow` | MT_systems/squoia/esqu/outputSentences.cpp:542-567 | the nested scoring loops equal one fold of the model over the flattened tokens of the row and the end of sentence |
| `ScoredWords.OrdinaryTokens` | MT_systems/squoia/esqu/outputSentences.cpp:554-561 | a word that is no alternative and no punctuation is scored by itself |
| `ScoredWords.AlternativeTokens` | MT_systems/squoia/esqu/outputSentences.cpp:555 | the slash in front of an alternative is not part of what is scored |
| `ScoredWords.PunctuationTokens` | MT_systems/squoia/esqu/outputSentences.cpp:556 | of a punctuation mark with its tag the first character is scored |
| `ScoredWords.SlashIsMistaken` | MT_systems/squoia/esqu/outputSentences.cpp:156-159 | a slash as a punctuation mark joins the column of the word before it and is scored as a hyphen |
| `ScoredWords.MorphTokens` | MT_systems/squoia/esqu/outputSentences.cpp:608-637 | a word with its morphemes is scored by the lemma and each morpheme in order; text before the first plus sign, plus signs without text, and a second colon with what follows are not looked at |
| `ScoredWords.ProperNameTokens` | MT_systems/squoia/esqu/outputSentences.cpp:602-606 | a proper name is scored as NP and by its morphemes |
| `ScoredWords.ScoreIsSum` | MT_systems/squoia/esqu/outputSentences.cpp:542-572 | the score is the sum, over the tokens and the end of sentence, of the probability in the state the tokens before have led to |
| `ScoredWords.OrdinaryRow` | MT_systems/squoia/esqu/outputSentences.cpp:551-567 | a row of ordinary words is scored by those words |
| `Scores.PrintedIs` | MT_systems/squoia/esqu/outputSentences.cpp:225 | a place is printed if and only if it is below the cut-off and there is a row for it |
| `Scores.FoldAppend` | MT_systems/squoia/esqu/outputSentences.cpp:589-637 | scoring a sequence in two parts from the state in between is scoring it at once |
| `Scores.CutIsNBest` | MT_systems/squoia/esqu/outputSentences.cpp:216-225 | any descending order of the scored rows, cut off, is a list of min(CUTOFF, N) distinct rows none of the rows left out beats |
| `Scores.PrintedPathsAreBest` | MT_systems/squoia/esqu/outputSentences.cpp:216-225 | no combination of alternatives left unprinted scores higher than a printed one |
| `LookupChain.SpellChecker.Load` | morphology/spellChecker/foma_files/spellcheck.c:94-126 | the list stays well formed, next and prev inverse, in load order when appended and reversed when prepended; an empty file is refused |
| `LookupChain.SpellChecker.AddNet` | morphology/spellChecker/foma_files/spellcheck.c:98-121 | one node is linked in at the tail or at the head |
| `LookupChain.ReversedAt` | morphology/spellChecker/foma_files/spellcheck.c:117-121 | position k of the prepended list is position n-1-k of the file |
| `LookupChain.SpellChecker.HandleLine` | morphology/spellChecker/foma_files/spellcheck.c:191-281 | what is printed for a line: that it is recognised; with alternates the results of the first net that answers, without them one result for each derivation through all nets in depth-first order; and the edit-distance matches, or that there are none, when there is nothing of the kind |
| `LookupChain.MedSearchIff` | morphology/spellChecker/foma_files/spellcheck.c:253-273 | the edit-distance search is announced if and only if the line is not empty, the analyser does not know it and no net answers, or no derivation goes through all nets |
| `Compositions.ComposeListsPaths` | morphology/spellChecker/foma_files/spellcheck.c:222-251 | the composition lists where all derivations lead, each once, in their order |
| `LookupChain.SpellChecker.SearchComposition` | morphology/spellChecker/foma_files/spellcheck.c:222-251 | the backtracking loop terminates and prints, in depth-first order and with multiplicity, exactly the composition of the nets; normalized iff it is non-empty |
| `LookupChain.SpellChecker.MoveUp` | morphology/spellChecker/foma_files/spellcheck.c:237-249 | walking the prev pointers resumes the nearest handle with a result left, and what is still owed is unchanged |
| `LookupChain.SpellChecker.SearchAlternates` | morphology/spellChecker/foma_files/spellcheck.c:205-221 | prints all results of the first net that has any |
| `LookupChain.SpellChecker.SearchByDistance` | morphology/spellChecker/foma_files/spellcheck.c:253-273 | prints every match of the edit-distance search, or that there is none |
| `Compositions.FirstAnswerIsFirst` | morphology/spellChecker/foma_files/spellcheck.c:205-221 | the results are those of the first net with an answer, and none when no net has one |
| `Compositions.ComposeConcat` | morphology/spellChecker/foma_files/spellcheck.c:222-251 | running two chains in sequence is running their concatenation |
| `Compositions.EveryPathIsEmitted` | morphology/spellChecker/foma_files/spellcheck.c:222-251 | every derivation through the nets is printed, at the place its rank says |
| `Compositions.EveryEmissionIsAPath` | morphology/spellChecker/foma_files/spellcheck.c:222-251 | nothing else is printed |
| `Compositions.EmissionIsDepthFirst` | morphology/spellChecker/foma_files/spellcheck.c:222-251 | derivations are printed in depth-first order |
| `Compositions.SearchDescends` | morphology/spellChecker/foma_files/spellcheck.c:226-229 | a step forward keeps what is outstanding and shortens the search |
| `Compositions.SearchResumes` | morphology/spellChecker/foma_files/spellcheck.c:239-245 | a step back keeps what is owed |
| `Framing.Connection.ReadMessage` | FreeLingModules/config_squoia/socket.h:136-156 | with one message in flight read_message returns it with its size, over every fragmentation, and an empty message differs from the end of the connection |
| `Framing.Connection.WriteMessage` | FreeLingModules/config_squoia/socket.h:158-162 | appends the message and its terminator to what is in flight |
| `Framing.Deliver` | FreeLingModules/config_squoia/socket.h:136-162 | a message written at one end is read at the other, with its size |
| `Framing.OneMessageIsReadBack` | FreeLingModules/config_squoia/socket.h:136-156 | over every fragmentation into reads of 1 to 2048 bytes the loop stops exactly at the end of the message, having accumulated it |
| `Framing.SafeIffOneMessageInFlight` | FreeLingModules/config_squoia/socket.h:136-156 | no fragmentation reads past the message if and only if nothing follows it |
| `ClientServer.StepKeepsLockstep` | FreeLingModules/server_squoia.cc:453-481 | every step of client, server or network keeps the lockstep invariant |
| `ClientServer.RunsKeepLockstep` | FreeLingModules/server_squoia.cc:453-481 | every run keeps it, and no run is longer than the work the script needs |
| `ClientServer.NeverStuck` | FreeLingModules/analyzer_client.cc:42-56 | as long as the conversation is not over someone can take a step |
| `ClientServer.OneMessageInFlight` | FreeLingModules/config_squoia/socket.h:136-162 | at most one terminator is in flight over both directions together |
| `ClientServer.ReachableStates` | FreeLingModules/analyzer_client.cc:42-94 | in every reachable state the line the server has read is the message the client sent last, and the server flushes only after the client has closed |
| `ClientServer.MaximalRunsComplete` | FreeLingModules/analyzer_client.cc:42-115 | a run that cannot go on has both sides closed and the replies printed in order, which are the outputs of the analyser if and only if none of them is the acknowledgement text |
| `AnalyserOutput.PrintedIsAnalysed` | FreeLingModules/analyzer_client.cc:42-115 | for files without command lines a run that cannot go on has printed what one analyser gives for them: its state is kept from line to line, each file is flushed behind its last line, and the next starts from there with the offset reset; outputs that equal the acknowledgement are missing |
| `AnalyserOutput.CommandsAnswered` | FreeLingModules/server_squoia.cc:455-470 | among the lines a statistics command prints the statistics and leaves the state alone, a reset prints nothing |
| `ClientServer.PrintedIsOutputs` | FreeLingModules/analyzer_client.cc:46-55 | the printed text is the outputs in order if and only if no output equals the acknowledgement |
| `WorkerSlots.SlotsAreConserved` | FreeLingModules/server_squoia.cc:62-66 | in every run semaphore, live workers, unreaped children, the slot being posted, the slot held and the failed forks add up to MaxWorkers, and the children left behind are exactly the merged exits |
| `WorkerSlots.RunKeepsSlots` | FreeLingModules/server_squoia.cc:111-138 | the invariant of the accounting over every run from any state that has it |
| `WorkerSlots.HandlerFindsChild` | FreeLingModules/server_squoia.cc:63-66 | whenever the handler runs there is a child to reap, so wait neither blocks nor fails |
| `WorkerSlots.AcceptsIff` | FreeLingModules/server_squoia.cc:111-125 | after any run another client can be accepted if and only if merged exits and failed forks together are fewer than MaxWorkers |
| `MaltServer.MaltParserServer.ReadSentence` | MT_systems/maltparser_tools/src/MaltParserServer.java:103-154 | reads the trimmed lines up to a blank line, the marker or the end, and raises the flag at the marker |
| `MaltServer.TrimmedIs` | MT_systems/maltparser_tools/src/MaltParserServer.java:125-145 | of a line everything up to the blank is cut at both ends, and nothing else |
| `MaltServer.BlankIff` | MT_systems/maltparser_tools/src/MaltParserServer.java:125-131 | a line is blank if and only if it has no character above the blank |
| `MaltServer.MaltParserServer.ParseSentences` | MT_systems/maltparser_tools/src/MaltParserServer.java:36-78 | writes the parse of each block served and leaves the flag as specified |
| `MaltServer.MaltParserServer.AcceptAll` | MT_systems/maltparser_tools/src/MaltParserServer.java:176-187 | the same over any sequence of connections, the flag surviving between them |
| `MaltServer.SentIsRead` | MT_systems/maltparser_tools/src/MPClient.java:30-43 | the lines the server reads are those the client read, a blank line and the marker |
| `MaltConnections.ServedFlagDown` | MT_systems/maltparser_tools/src/MaltParserServer.java:46-78 | for any lines, with the flag down: the blocks before the first line at which the server stops are served, and the flag is up afterwards exactly when it stopped at a marker that ends no block |
| `MaltConnections.ServedFlagUp` | MT_systems/maltparser_tools/src/MaltParserServer.java:46-78 | for any lines, with the flag up: only a block at the very start is served, which takes the flag down; otherwise the flag stays up |
| `MaltConnections.BlocksSplit` | MT_systems/maltparser_tools/src/MaltParserServer.java:125-138 | the blocks of an input are its maximal runs of word lines: any other line separates them and nothing else does |
| `MaltConnections.ClientServedIff` | MT_systems/maltparser_tools/src/MaltParserServer.java:36-78 | every block of an input is served if and only if each word line but the first follows a word line or, with the flag down, a single blank line behind a word line |
| `MaltConnections.NextFlagIsExact` | MT_systems/maltparser_tools/src/MaltParserServer.java:46-78 | the flag after a client, for any lines, markers included, and either flag |
| `MaltConnections.LeavesFlagUpIff` | MT_systems/maltparser_tools/src/MaltParserServer.java:46-78 | an input without a marker leaves the flag up if and only if its words are spaced so and the last line is one |
| `MaltConnections.FlagIsExact` | MT_systems/maltparser_tools/src/MaltParserServer.java:176-187 | the flag at every accept, for every sequence of clients with any lines, or none |
| `MaltConnections.AllServedIff` | MT_systems/maltparser_tools/src/MaltParserServer.java:36-187 | every block of every client is served, in order, if and only if the words of each client are spaced as the flag it meets allows |
| `MaltConnections.TrailingBlanksKeepFlagDown` | MT_systems/maltparser_tools/src/MaltParserServer.java:36-187 | when no input ends in a word line or has a marker the flag is down at every accept, and everything is served if and only if no block has a blank line too many in front |
| `MaltConnections.ConnectionOutcome` | MT_systems/maltparser_tools/src/MaltParserServer.java:46-78 | for blocks separated by one blank line: blocks served and next flag by the flag, the blocks and whether the input ends in a blank line |
| `MaltConnections.DoubledBlankLosesABlock` | MT_systems/maltparser_tools/src/MaltParserServer.java:54-57 | a doubled blank line loses the block behind it although the input ends in a blank line |
| `MaltConnections.LeadingBlankLosesAll` | MT_systems/maltparser_tools/src/MaltParserServer.java:54-57 | a blank line in front of the first block loses everything |
| `MaltConnections.FlagUpLosesABlock` | MT_systems/maltparser_tools/src/MaltParserServer.java:58-65 | a client that meets the flag up gets only its first block |
| `DependencyTrees.Converter.Convert` | parsing/quzconll2pml.pl:71-235 | a document is printed if and only if in every block each head number that is looked for is carried by a word and the head numbers close no cycle; then every word stands under the last one that carries its head number, or under VROOT, and siblings are in input order |
| `DependencyTrees.Converter.BuildDependencies` | parsing/quzconll2pml.pl:185-235 | re-parenting word by word succeeds exactly then, and gives those parents |
| `DependencyTrees.TreeIffNumbers` | parsing/quzconll2pml.pl:195-229 | the heads form a tree if and only if each head number that is looked for is carried and they close no cycle |
| `HeadForests.ForestIffNoCycle` | parsing/quzconll2pml.pl:223-229 | every node reaches VROOT if and only if no chain of parents comes back to where it began |
| `DependencyTrees.BlocksOfSeparated` | parsing/quzconll2pml.pl:71-103 | lines without blank ones, with one blank line between each two lists, are read as those blocks |
| `DependencyTrees.BlockParts` | parsing/quzconll2pml.pl:104-172 | the words of a block in order, and the number on its last VROOT line |
| `DependencyTrees.Converter.Read` | parsing/quzconll2pml.pl:71-172 | the reading loop indexes every word under its block and number and keeps the VROOT number of each block |
| `DependencyTrees.SentenceTree.AppendChild` | parsing/quzconll2pml.pl:223-229 | a node is refused under itself or a descendant and otherwise taken out of its list, wherever it is, and put at the end of the new one |
| `DependencyTrees.RejectedMeansCycle` | parsing/quzconll2pml.pl:223-229 | a move is refused only when the head relation has a cycle, whose last edge it is |
| `DependencyTrees.AppendKeepsValid` | parsing/quzconll2pml.pl:194-230 | every move keeps the forest and every list of children in input order |
| `DependencyTrees.ParentsAreHeads` | parsing/quzconll2pml.pl:194-234 | when all words are processed the parents are the heads |
| `DependencyTrees.SentencesAreBlocks` | parsing/quzconll2pml.pl:71-103 | sentences are exactly the blocks with a word |
| `DependencyTrees.SentencesAreInOrder` | parsing/quzconll2pml.pl:71-103 | they stand in the order of the blocks |
| `DependencyTrees.RootWords` | parsing/quzconll2pml.pl:195-202 | a word with head 0 stays under VROOT unless the unanchored id test mistakes it for VROOT |
| `DependencyTrees.RootWordMistaken` | parsing/quzconll2pml.pl:197 | word 12 of a sentence whose VROOT is number 1 is such a word: the code looks up head 0 and exits |
| `Numerals.DecimalPrefix` | parsing/quzconll2pml.pl:197 | the digits of a number never start with those of a larger one, so the test never misfires for words before VROOT |
| `HeadForests.MoveKeepsForest` | parsing/quzconll2pml.pl:223-225 | putting a node under one that is not below it keeps the forest |
| `HeadForests.CyclesNeverRoot` | parsing/quzconll2pml.pl:223-229 | a node above itself never reaches VROOT |
| `HeadForests.ChildrenInOrder` | parsing/quzconll2pml.pl:191-225 | a list of children holds each child once, in increasing order |
| `CrfRows.FreelingToCrf` | FreeLingModules/output_crf.cc:161-231 | the row of a word: form and case, the lemma and tag of each analysis that is not held back, padding, flag and class |
| `CrfRows.WriteColumns` | FreeLingModules/output_crf.cc:172-220 | the counter equals the number of pairs printed when padding starts, proper nouns held back and the gerund break included |
| `CrfRows.Considered` | FreeLingModules/output_crf.cc:180-195 | the analyses looked at are those up to the first gerund |
| `CrfRows.GerundIff` | FreeLingModules/output_crf.cc:180-195 | a gerund has G0000 behind two characters of its tag and ando or endo in its form, with or without accent |
| `CrfRows.HeldBackIff` | FreeLingModules/output_crf.cc:185-192 | an analysis that is no gerund is held back if and only if it is a proper noun of the first word of a sentence |
| `CrfRows.PrintedParts` | FreeLingModules/output_crf.cc:180-213 | the analyses looked at are printed in order without those held back, unless that leaves none |
| `CrfRows.RowWidth` | FreeLingModules/output_crf.cc:200-231 | the row has 19 columns and the class if and only if at most eight pairs are printed; at least one is |
| `CrfRows.RowColumns` | FreeLingModules/output_crf.cc:161-220 | which column holds the form, the case, which lemma and tag, dummy and flag |
| `CrfRows.ClassMeaning` | FreeLingModules/output_crf.cc:221-229 | the class is printed if and only if one pair is printed, no analysis was skipped and the first tag is not Z; it is the tag of that pair, or empty for a gerund behind held-back proper nouns |
| `CrfRows.FieldsOfLine` | FreeLingModules/nec.cc:117-128 | the cells of a row are extracted again; an empty class is not seen |
| `CrfRows.RowFields` | FreeLingModules/nec.cc:117-128 | of every row columns 0 to 18 are extracted as they were written, and in column 19 the class if it is there and not empty |
| `CrfRows.LongRow` | FreeLingModules/output_crf.cc:196-221 | a row with more than eight pairs has no class, and its column 19, which nec takes for the class, is the ninth tag |
| `NecRows.Nec.Run` | FreeLingModules/nec.cc:114-157 | output line i is row i printed again with the tag the classifier gives it in its sentence, and there is one blank line more at the end |
| `NecRows.Nec.ReadWordLine` | FreeLingModules/nec.cc:115-143 | the extractions of one line: a missing field leaves its variable as it was |
| `NecRows.Nec.PrintWord` | FreeLingModules/nec.cc:53-64 | one row printed again |
| `NecRows.SentenceIsClassified` | FreeLingModules/nec.cc:46-64 | each row between two blank lines is printed with the tag the classifier gives at its position, being asked with all tokens of the sentence |
| `NecRows.FieldsAreTaken` | FreeLingModules/nec.cc:115-128 | every field there is takes its variable, a missing one leaves it, and a missing feature repeats the one before |
| `NecRows.ColumnsAreKept` | FreeLingModules/nec.cc:46-64 | columns 0 to 18 of a row with at least 19 fields come out unchanged |
| `NecRows.TagIsLastRead` | FreeLingModules/nec.cc:119-128 | a row without a class of its own is given to the classifier with the class read last, across sentences |
| `NecRows.CrfRowIsPrintedAgain` | FreeLingModules/nec.cc:115-157 | columns 0 to 18 of every row written by freeling2crf are printed again, and the classifier is given what stands in column 19, or the class read last when nothing does |
| `Hyphens.GetHyphenationPositions` | morphology/spellcheck_plugin/src/java/qhichwa/src/qhichwa/client/PossibleHyphens.java:20-56 | the second pass fills the array the first pass has counted, with the break positions |
| `Hyphens.PositionsAreExact` | morphology/spellcheck_plugin/src/java/qhichwa/src/qhichwa/client/PossibleHyphens.java:40-54 | the positions are strictly increasing and exactly those where one of the six cases holds |
| `Hyphens.BreaksIff` | morphology/spellcheck_plugin/src/java/qhichwa/src/qhichwa/client/PossibleHyphens.java:24-40 | a word breaks behind the first of two equal consonants, between two different vowels, behind a vowel in front of a consonant and a vowel or of ng and a vowel, behind r in front of a consonant, and inside ts |
| `Hyphens.AllBreaksAreFound` | morphology/spellcheck_plugin/src/java/qhichwa/src/qhichwa/client/PossibleHyphens.java:40-55 | the positions are those breaks but at the last two characters |
| `Hyphens.GetPossibleHyphens` | morphology/spellcheck_plugin/src/java/qhichwa/src/qhichwa/client/PossibleHyphens.java:63-71 | inserting from the last position to the first puts a hyphen behind each break position of the word; insert throws if and only if lower-casing has moved the last position behind the end of the word |
| `Hyphens.UndoingRecovers` | morphology/spellcheck_plugin/src/java/qhichwa/src/qhichwa/client/PossibleHyphens.java:67-69 | deleting what was inserted gives the word back, whatever is in it |
| `Hyphens.DeletingHyphensRecovers` | morphology/spellcheck_plugin/src/java/qhichwa/src/qhichwa/client/PossibleHyphens.java:63-71 | deleting every = gives the word back if and only if it has none of its own |
| `Hyphens.LongerInLowerCase` | morphology/spellcheck_plugin/src/java/qhichwa/src/qhichwa/client/PossibleHyphens.java:15-22 | a word of six characters that becomes nine in lower case, with a break position behind its end, for which insert throws |

## Left out

Weaker than the source in the named member:

- Escaping.WriteXml: for a string that starts with an apostrophe the source reads the character before the string, which is a parameter here; elsewhere such a string is taken to have no `=` in front.
- SenseOrder.OrderOrdainak: requires senses that are not negative, because a negative one indexes the vector out of bounds; the overflow of `wcstol` is not modelled.
- AttributeText.TextAttrib: requires that every token up to the one found has a name, and that one a value, because the source indexes them; `TextAllAttribExcept`, `GetDictAttributes` and `SplitMultiattrib` have the corresponding requirements.
- LexInfo.CleanLine: for an empty line the source reads outside of it; here nothing is cut.
- SenseOrder.NothingIsLostIff: requires entries that are not empty, which cannot be told from blanks; `AllSurviveIff` holds for all.
- PrintedTransfer.SentenceReadsBackIff: the reader knows tags, attributes in apostrophes and the five predefined entities; it takes only spaces between attributes, any characters but white space, quotes, `=`, `<`, `>`, `&` and `/` in a name, and line breaks in a value as they are. Where the source indexes out of bounds, at a word of `=` only or a part without a value, the printed text is an arbitrary one.
- PlainAnswers.PlainNodeIsPrinted: for unambiguous words and entries without spaces, apostrophes, `=`, `<` and `>`, whose senses count up from 0 or 1.
- AnalyserOutput.PrintedIsAnalysed: for files none of whose lines is a command of the server; `CommandsAnswered` says what the statistics commands do among them.
- Scores.ScoreRow: scores are reals, so rounding of `float` sums is not modelled.
- SentenceReader.Reader.StoreWord: the counter of alternatives is unbounded, so the overflow of `int` is not modelled.
- SentenceReader.IsAlternative: a slash is looked for at the start of the line only, not after a carriage return or form feed inside it.
- SentenceReader.Reader.ReadInput: sorting enters by its contract, any descending permutation, since `std::sort` leaves equal scores in any order.
- CrfRows.FreelingToCrf: requires at least one analysis, because the source dereferences the first one.
- Framing.Connection.ReadMessage: errors of the socket, which end the program, are not modelled.
- Hyphens.GetPossibleHyphens: positions are unbounded instead of `short`.
- MaltServer.MaltParserServer.AcceptAll: exceptions of the parser, which end a connection early, are not modelled.

Not modelled:

- The libraries: foma, KenLM, lttoolbox, libxml2, FreeLing, MaltParser and Wapiti, beyond the parameters named above.
- Locales and encodings: a character stands for whatever unit the source works on, and white space is that of ASCII.
- Input and output beyond the sequences of lines, messages and printed values; command lines, configuration files and logging.
- `ProcNode`, `ProcChunk` and `ProcSentence` do not carry the attributes of parent and head along, because `lexical_selection` ignores them and takes the first translation; processing instructions named like an element count as other events.
- `upper_type`, the chunk types and the dictionary look-up of a node enter the transfer as functions; the loop of its `main` over sentences is left out.
- The presentation in `printSents`, `printSentsMorphGen` and `printTestMorphs`: spacing and capital letters.
- Document mode, column mode and language identification of the FreeLing server; column mode sends no reply to a line and is not in lockstep with this client.
- The headers the client prints around each input file, and the failure of the server's last write once the client is gone.
- `WorkerSlots` takes `sem_wait` and `accept` to be restarted after a signal, and a handler not to be interrupted by its own signal.
- Perl's conversions between strings and numbers: word numbers are natural numbers in canonical decimal form; the morphology columns of a word are not read.
- Nodes of the tree other than the children lists: `DependencyTrees` keeps a word as its number and its head.
- The choice of the first word that is no punctuation in `freeling2crf`: the flag is a parameter; `nec` takes a word's position in its sentence for its index.
- `translate.pm`, the other spell checkers and servers, and the remaining Perl scripts: near copies, or tables and pattern rules.
