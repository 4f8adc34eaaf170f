// The text the lexical transfer prints, read as markup: when a reader takes every tag and every attribute
// as it was meant, by the attribute values of the input and the answers of the dictionary
// (squoia_xfer_lex.cc).
module PrintedTransfer {
  import opened Options
  import opened Strings
  import opened Tokens
  import opened TransferGrammar
  import opened TransferParsing
  import opened Escaping
  import opened Markup
  import opened PrintedValues
  import opened KeptAttributes
  import opened ProgramLexicon
  import opened AttributeText
  import opened MultiAttributes
  import opened PrintedTranslations

  type Pairs = (string, string) -> seq<Attributes>

  // ---- The start of a NODE. ----

  lemma Names()
    ensures IsName("ref") && IsName("alloc") && IsName("slem") && IsName("smi") && IsName("sform") && IsName("UpCase")
    ensures IsName("unknown") && IsName("tradlem") && IsName("type")
  {
  }

  lemma ElementNames()
    ensures IsName("NODE") && IsName("SYN") && IsName("CHUNK") && IsName("SENTENCE")
  {
  }

  lemma ReadsOne(lex: Lexicon, name: string, value: string)
    requires IsProgram(lex) && IsName(name)
    ensures Reads(" " + Field(lex, name, value), [(name, value)], FieldSafe(value))
  {
    hide Escape, FieldSafe, IsName, Reads;
    assert lex.escape(value) == Escape(value);
    ReadsField(name, value);
  }

  function BaseAttributes(lex: Lexicon, attributes: Attributes): Attributes
  {
    var at := (name: string) => Attribute(attributes, name);
    [("ref", at("ord"))] + [("alloc", at("alloc"))] + [("slem", at("lem"))] + [("smi", at("mi"))]
    + [("sform", at("form"))] + [("UpCase", lex.upperType(at("form"), at("mi"), at("ord")))]
  }

  // The six values have no apostrophe at the end or at a boundary.
  ghost predicate BaseSafe(lex: Lexicon, attributes: Attributes)
  {
    var at := (name: string) => Attribute(attributes, name);
    && FieldSafe(at("ord")) && FieldSafe(at("alloc")) && FieldSafe(at("lem")) && FieldSafe(at("mi"))
    && FieldSafe(at("form")) && FieldSafe(lex.upperType(at("form"), at("mi"), at("ord")))
  }

  lemma ReadsNext(lex: Lexicon, text: string, before: Attributes, ok: bool, name: string, value: string)
    requires IsProgram(lex) && IsName(name) && Reads(" " + text, before, ok)
    ensures Reads(" " + (text + " " + Field(lex, name, value)), before + [(name, value)], ok && FieldSafe(value))
  {
    hide FieldSafe, IsName, Reads, IsProgram;
    ReadsOne(lex, name, value);
    ReadsJoin(" " + text, before, ok, " " + Field(lex, name, value), [(name, value)], FieldSafe(value));
    assert " " + text + (" " + Field(lex, name, value)) == " " + (text + " " + Field(lex, name, value));
  }

  lemma ReadsBase(lex: Lexicon, attributes: Attributes)
    requires IsProgram(lex)
    ensures Reads(" " + BaseText(lex, attributes), BaseAttributes(lex, attributes), BaseSafe(lex, attributes))
  {
    hide FieldSafe, IsName, Reads, Field, IsProgram, Attribute;
    Names();
    var at := (name: string) => Attribute(attributes, name);
    var ord, alloc, lem, mi, form := at("ord"), at("alloc"), at("lem"), at("mi"), at("form");
    ReadsOne(lex, "ref", ord);
    var t1, a1, ok1 := Field(lex, "ref", ord), [("ref", ord)], FieldSafe(ord);
    ReadsNext(lex, t1, a1, ok1, "alloc", alloc);
    var t2, a2, ok2 := t1 + " " + Field(lex, "alloc", alloc), a1 + [("alloc", alloc)], ok1 && FieldSafe(alloc);
    ReadsNext(lex, t2, a2, ok2, "slem", lem);
    var t3, a3, ok3 := t2 + " " + Field(lex, "slem", lem), a2 + [("slem", lem)], ok2 && FieldSafe(lem);
    ReadsNext(lex, t3, a3, ok3, "smi", mi);
    var t4, a4, ok4 := t3 + " " + Field(lex, "smi", mi), a3 + [("smi", mi)], ok3 && FieldSafe(mi);
    ReadsNext(lex, t4, a4, ok4, "sform", form);
    var t5, a5, ok5 := t4 + " " + Field(lex, "sform", form), a4 + [("sform", form)], ok4 && FieldSafe(form);
    ReadsNext(lex, t5, a5, ok5, "UpCase", lex.upperType(form, mi, ord));
  }

  // ---- The attributes of what the dictionary gives. ----

  datatype FoundPairs = FoundPairs(trad: seq<Attributes>, trad2: seq<Attributes>)

  // The attributes of what LookUpNode finds.
  function LookUpPairs(pairs: Pairs, attributes: Attributes): FoundPairs
  {
    var lem, mi := Attribute(attributes, "lem"), Attribute(attributes, "mi");
    if "Z" <= mi || "DN" <= mi then FoundPairs(pairs(Attribute(attributes, "form"), mi), [])
    else
      var split := Find(lem, '#', 0);
      if split == |lem| || split + 2 > |lem| then FoundPairs(pairs(lem, mi), [])
      else FoundPairs(pairs(lem[..split], mi), pairs(lem[split + 2..], mi))
  }

  // What was found and its attributes belong together.
  ghost predicate Fits(found: LookUp, its: FoundPairs)
  {
    && AreTexts(found.trad, its.trad) && AreTexts(found.trad2, its.trad2)
    && (!found.ambilem ==> found.trad2 == [])
  }

  lemma LookUpFits(lex: Lexicon, pairs: Pairs, attributes: Attributes)
    requires Translates(lex, pairs)
    ensures LookUpNode(lex, attributes).Some? ==>
      Fits(LookUpNode(lex, attributes).value, LookUpPairs(pairs, attributes))
  {
    NothingIsText();
    hide AreTexts, Find, Attribute;
  }

  lemma NothingIsText()
    ensures AreTexts([], [])
  {
  }

  // ---- The attributes of a NODE. ----

  // The lemma printed to tradlem as it is.
  function TradLem(found: LookUp): string
  {
    if found.trad != [] then found.lem1 else found.lem2
  }

  function MarkedAttributes(lex: Lexicon, attributes: Attributes, found: LookUp): Attributes
  {
    BaseAttributes(lex, attributes) + (if found.ambilem then [("tradlem", TradLem(found))] else [])
  }

  ghost predicate MarkedSafe(lex: Lexicon, attributes: Attributes, found: LookUp)
  {
    BaseSafe(lex, attributes) && (found.ambilem ==> RawSafe(TradLem(found)))
  }

  lemma ReadsMarked(lex: Lexicon, attributes: Attributes, found: LookUp)
    requires IsProgram(lex)
    ensures Reads(" " + Marked(BaseText(lex, attributes), found), MarkedAttributes(lex, attributes, found),
                  MarkedSafe(lex, attributes, found))
  {
    hide Reads, RawSafe, BaseText, BaseAttributes, BaseSafe, IsName, IsProgram;
    ReadsBase(lex, attributes);
    var base, lem := BaseText(lex, attributes), TradLem(found);
    var mine, ok := BaseAttributes(lex, attributes), BaseSafe(lex, attributes);
    if found.ambilem {
      Names();
      ReadsRaw("tradlem", lem);
      ReadsSpaces(1);
      assert Spaces(1) == " ";
      var raw := " " + ("tradlem='" + lem + "'");
      assert "tradlem" + "='" + lem + "'" == "tradlem='" + lem + "'";
      ReadsJoin(" " + base, mine, ok, raw, [("tradlem", lem)], RawSafe(lem));
      ReadsJoin(" " + base + raw, mine + [("tradlem", lem)], ok && RawSafe(lem), " ", [], true);
      assert " " + base + raw + " " == " " + (base + " tradlem='" + lem + "' ");
      assert mine + [("tradlem", lem)] + [] == mine + [("tradlem", lem)];
    } else {
      assert mine + [] == mine;
    }
  }

  function SelectedPairs(its: FoundPairs): Attributes
  {
    if its.trad != [] then its.trad[0] else if its.trad2 != [] then its.trad2[0] else []
  }

  ghost function HeadAttributes(lex: Lexicon, pairs: Pairs, attributes: Attributes): Attributes
  {
    var unknown, found := Attribute(attributes, "unknown"), LookUpNode(lex, attributes);
    if unknown != "" then BaseAttributes(lex, attributes) + [("unknown", unknown)]
    else if found.None? then []
    else if Unknown(found.value) then BaseAttributes(lex, attributes) + [("unknown", "transfer")]
    else MarkedAttributes(lex, attributes, found.value) + SelectedPairs(LookUpPairs(pairs, attributes))
  }

  ghost predicate HeadSafe(lex: Lexicon, pairs: Pairs, attributes: Attributes)
  {
    var unknown, found := Attribute(attributes, "unknown"), LookUpNode(lex, attributes);
    if unknown != "" then BaseSafe(lex, attributes) && FieldSafe(unknown)
    else if found.None? then true
    else if Unknown(found.value) then BaseSafe(lex, attributes)
    else MarkedSafe(lex, attributes, found.value) && PairsSafe(SelectedPairs(LookUpPairs(pairs, attributes)))
  }

  lemma SelectedIsText(found: LookUp, its: FoundPairs)
    requires Fits(found, its) && !Unknown(found)
    ensures Selected(found) == TextOf(SelectedPairs(its))
  {
    hide TextOf;
  }

  lemma ReadsHead(lex: Lexicon, pairs: Pairs, attributes: Attributes)
    requires IsProgram(lex) && Translates(lex, pairs)
    ensures Reads(" " + HeadOr(lex, attributes).text, HeadAttributes(lex, pairs, attributes),
                  HeadSafe(lex, pairs, attributes))
  {
    hide Reads, IsProgram, BaseText, BaseAttributes, BaseSafe, FieldSafe, MarkedAttributes, MarkedSafe, PairsSafe;
    hide IsName, LookUpNode, LookUpPairs, Marked, Selected, SelectedPairs, TextOf, Field, Translates, Fits;
    LookUpFits(lex, pairs, attributes);
    Names();
    var base, mine, ok := BaseText(lex, attributes), BaseAttributes(lex, attributes), BaseSafe(lex, attributes);
    var unknown, found := Attribute(attributes, "unknown"), LookUpNode(lex, attributes);
    ReadsBase(lex, attributes);
    if unknown != "" {
      ReadsNext(lex, base, mine, ok, "unknown", unknown);
    } else if found.None? {
      ReadsSpaces(1);
      assert Spaces(1) == " " && " " + "" == " ";
    } else if Unknown(found.value) {
      TransferIsSafe(lex);
      ReadsNext(lex, base, mine, ok, "unknown", "transfer");
      assert base + " unknown='transfer'" == base + " " + Field(lex, "unknown", "transfer");
    } else {
      ReadsTranslated(lex, pairs, attributes, found.value);
    }
  }

  lemma TransferIsSafe(lex: Lexicon)
    requires IsProgram(lex)
    ensures FieldSafe("transfer") && " " + Field(lex, "unknown", "transfer") == " unknown='transfer'"
  {
    hide Escape, FieldSafe, Parts, KeptText, AttributesText;
    TransferIsPlain();
    assert lex.escape("transfer") == Escape("transfer");
    assert "unknown" + "='" + "transfer" + "'" == "unknown='transfer'";
  }

  lemma TransferIsPlain()
    ensures FieldSafe("transfer") && Escape("transfer") == "transfer"
  {
    hide EscapeFrom, EscapeBefore;
    EscapeAlone(None, "transfer");
    PlainStays(None, "transfer", "");
  }

  lemma ReadsTranslated(lex: Lexicon, pairs: Pairs, attributes: Attributes, found: LookUp)
    requires IsProgram(lex) && Fits(found, LookUpPairs(pairs, attributes)) && !Unknown(found)
    ensures var its := LookUpPairs(pairs, attributes);
      Reads(" " + (Marked(BaseText(lex, attributes), found) + " " + Selected(found)),
            MarkedAttributes(lex, attributes, found) + SelectedPairs(its),
            MarkedSafe(lex, attributes, found) && PairsSafe(SelectedPairs(its)))
  {
    hide Reads, IsProgram, BaseText, MarkedAttributes, MarkedSafe, PairsSafe;
    hide LookUpPairs, Marked, Selected, SelectedPairs, TextOf, Fits;
    var its, marked := LookUpPairs(pairs, attributes), Marked(BaseText(lex, attributes), found);
    SelectedIsText(found, its);
    ReadsMarked(lex, attributes, found);
    ReadsText(SelectedPairs(its));
    ReadsJoin(" " + marked, MarkedAttributes(lex, attributes, found), MarkedSafe(lex, attributes, found),
              " " + Selected(found), SelectedPairs(its), PairsSafe(SelectedPairs(its)));
    assert " " + marked + (" " + Selected(found)) == " " + (marked + " " + Selected(found));
  }

  // ---- The inserted children. ----

  lemma {:induction false} AllTell(tags: seq<Tag>, markup: seq<Markup>, oks: seq<bool>)
    requires |tags| == |markup| == |oks|
    requires forall i :: 0 <= i < |tags| ==> Tells([tags[i]], [markup[i]], oks[i])
    ensures Tells(tags, markup, AllOf(oks))
  {
    hide Tells, AllOf;
    AllOfStep(oks);
    if tags == [] {
      NothingTells();
    } else {
      assert forall i :: 0 <= i < |tags[1..]| ==> tags[1..][i] == tags[i + 1] && markup[1..][i] == markup[i + 1];
      AllTell(tags[1..], markup[1..], oks[1..]);
      assert Tells([tags[0]], [markup[0]], oks[0]);
      TellsJoin([tags[0]], [markup[0]], oks[0], tags[1..], markup[1..], AllOf(oks[1..]));
      assert tags == [tags[0]] + tags[1..] && markup == [markup[0]] + markup[1..];
    }
  }

  ghost predicate AllOf(oks: seq<bool>)
  {
    forall i :: 0 <= i < |oks| ==> oks[i]
  }

  lemma AllOfStep(oks: seq<bool>)
    ensures AllOf(oks) <==> oks == [] || (oks[0] && AllOf(oks[1..]))
  {
    if oks != [] {
      assert oks == [oks[0]] + oks[1..];
    }
  }

  function SynonymsMarkup(trad: seq<Attributes>): seq<Markup>
  {
    seq(|trad|, i requires 0 <= i < |trad| => EmptyElement("SYN", trad[i]))
  }

  ghost predicate SynonymSafe(pairs: Attributes)
  {
    PairsSafe(pairs) && IsDistinct(pairs)
  }

  ghost predicate SynonymsSafe(trad: seq<Attributes>)
  {
    forall i :: 0 <= i < |trad| ==> SynonymSafe(trad[i])
  }

  lemma SynonymsAllOf(trad: seq<Attributes>, oks: seq<bool>)
    requires |oks| == |trad| && forall i :: 0 <= i < |oks| ==> oks[i] == SynonymSafe(trad[i])
    ensures AllOf(oks) <==> SynonymsSafe(trad)
  {
    hide SynonymSafe;
    if AllOf(oks) {
      forall i | 0 <= i < |trad|
        ensures SynonymSafe(trad[i])
      {
        assert oks[i];
      }
    }
  }

  lemma SynonymsTell(texts: seq<string>, trad: seq<Attributes>)
    requires AreTexts(texts, trad)
    ensures Tells(Synonyms(texts), SynonymsMarkup(trad), SynonymsSafe(trad))
  {
    hide Tells, PairsSafe, IsDistinct, TextOf, Reads, IsName;
    ElementNames();
    var oks := seq(|trad|, i requires 0 <= i < |trad| => SynonymSafe(trad[i]));
    var tags, markup := Synonyms(texts), SynonymsMarkup(trad);
    forall i | 0 <= i < |tags|
      ensures Tells([tags[i]], [markup[i]], oks[i])
    {
      ReadsText(trad[i]);
      ReadsElement(tags[i], trad[i], PairsSafe(trad[i]));
    }
    AllTell(tags, markup, oks);
    SynonymsAllOf(trad, oks);
  }

  function SynonymsOfMarkup(trad: seq<Attributes>, slem: string): seq<Markup>
  {
    seq(|trad|, i requires 0 <= i < |trad| => EmptyElement("SYN", trad[i] + [("slem", slem)]))
  }

  ghost predicate SynonymOfSafe(pairs: Attributes, slem: string)
  {
    PairsSafe(pairs) && RawSafe(slem) && IsDistinct(pairs + [("slem", slem)])
  }

  ghost predicate SynonymsOfSafe(trad: seq<Attributes>, slem: string)
  {
    forall i :: 0 <= i < |trad| ==> SynonymOfSafe(trad[i], slem)
  }

  lemma SynonymsOfAllOf(trad: seq<Attributes>, slem: string, oks: seq<bool>)
    requires |oks| == |trad| && forall i :: 0 <= i < |oks| ==> oks[i] == SynonymOfSafe(trad[i], slem)
    ensures AllOf(oks) <==> SynonymsOfSafe(trad, slem)
  {
    hide SynonymOfSafe;
    if AllOf(oks) {
      forall i | 0 <= i < |trad|
        ensures SynonymOfSafe(trad[i], slem)
      {
        assert oks[i];
      }
    }
  }

  lemma ReadsSynonymOf(pairs: Attributes, slem: string)
    ensures Reads(" " + (TextOf(pairs) + " slem='" + slem + "' "), pairs + [("slem", slem)],
                  PairsSafe(pairs) && RawSafe(slem))
  {
    hide Reads, PairsSafe, RawSafe, TextOf, IsName;
    Names();
    ReadsText(pairs);
    ReadsRaw("slem", slem);
    ReadsSpaces(1);
    assert Spaces(1) == " ";
    var text, raw := " " + TextOf(pairs), " " + ("slem='" + slem + "'");
    assert "slem" + "='" + slem + "'" == "slem='" + slem + "'";
    ReadsJoin(text, pairs, PairsSafe(pairs), raw, [("slem", slem)], RawSafe(slem));
    ReadsJoin(text + raw, pairs + [("slem", slem)], PairsSafe(pairs) && RawSafe(slem), " ", [], true);
    assert text + raw + " " == " " + (TextOf(pairs) + " slem='" + slem + "' ");
    assert pairs + [("slem", slem)] + [] == pairs + [("slem", slem)];
  }

  lemma SynonymsOfTell(texts: seq<string>, trad: seq<Attributes>, slem: string)
    requires AreTexts(texts, trad)
    ensures Tells(SynonymsOf(texts, slem), SynonymsOfMarkup(trad, slem), SynonymsOfSafe(trad, slem))
  {
    hide Tells, PairsSafe, RawSafe, IsDistinct, TextOf, Reads, IsName;
    ElementNames();
    var oks := seq(|trad|, i requires 0 <= i < |trad| => SynonymOfSafe(trad[i], slem));
    var tags, markup := SynonymsOf(texts, slem), SynonymsOfMarkup(trad, slem);
    forall i | 0 <= i < |tags|
      ensures Tells([tags[i]], [markup[i]], oks[i])
    {
      ReadsSynonymOf(trad[i], slem);
      ReadsElement(tags[i], trad[i] + [("slem", slem)], PairsSafe(trad[i]) && RawSafe(slem));
    }
    AllTell(tags, markup, oks);
    SynonymsOfAllOf(trad, slem, oks);
  }

  // The cells of the parts behind the first, when the translation has several.
  ghost function PartCells(text: string): seq<seq<(string, string)>>
  {
    var tokens := Runs(text, " ");
    if '\\' !in text || !Splittable(tokens) || Width(tokens) <= 1 then []
    else seq(Width(tokens) - 1, i requires 0 <= i => Cells(tokens, i + 1))
  }

  ghost function SubnodesMarkup(mine: Attributes, cells: seq<seq<(string, string)>>): seq<Markup>
  {
    seq(|cells|, i requires 0 <= i < |cells| => EmptyElement("NODE", mine + CellAttributes(cells[i])))
  }

  ghost predicate SubnodeReads(mine: Attributes, ok: bool, cells: seq<(string, string)>)
  {
    ok && CellsSafe(cells) && IsDistinct(mine + CellAttributes(cells))
  }

  ghost predicate SubnodesRead(mine: Attributes, ok: bool, cells: seq<seq<(string, string)>>)
  {
    forall i :: 0 <= i < |cells| ==> SubnodeReads(mine, ok, cells[i])
  }

  lemma ReadsSubnode(marked: string, mine: Attributes, ok: bool, tokens: seq<string>, j: nat)
    requires Reads(" " + marked, mine, ok) && Splittable(tokens) && AreSpaceFree(tokens)
    ensures Reads(" " + (marked + " " + Column(tokens, j) + " "), mine + CellAttributes(Cells(tokens, j)),
                  ok && CellsSafe(Cells(tokens, j)))
  {
    hide Reads, CellsSafe, CellAttributes, Cells, Column, PlainCell;
    var cells, column := Cells(tokens, j), Column(tokens, j);
    ColumnIsCells(tokens, j);
    CellsArePlain(tokens, j);
    PlainCells(cells);
    ReadsCells(cells);
    ReadsSpaces(1);
    assert Spaces(1) == " ";
    ReadsJoin(" " + marked, mine, ok, " " + column, CellAttributes(cells), CellsSafe(cells));
    ReadsJoin(" " + marked + (" " + column), mine + CellAttributes(cells), ok && CellsSafe(cells), " ", [], true);
    assert " " + marked + (" " + column) + " " == " " + (marked + " " + column + " ");
    assert mine + CellAttributes(cells) + [] == mine + CellAttributes(cells);
  }

  ghost predicate AreSpaceFree(tokens: seq<string>)
  {
    SpaceFree(tokens)
  }

  lemma PlainCells(cells: seq<(string, string)>)
    requires forall i :: 0 <= i < |cells| ==> PlainCell(cells[i])
    ensures forall i :: 0 <= i < |cells| ==> '\'' !in cells[i].1
  {
    forall i | 0 <= i < |cells|
      ensures '\'' !in cells[i].1
    {
      assert PlainCell(cells[i]);
    }
  }

  lemma PartsAre(text: string)
    ensures var tokens := Runs(text, " ");
      && |Parts(text)| == (if Splittable(tokens) then Width(tokens) else 0)
      && (Splittable(tokens) ==> forall j :: 0 <= j < |Parts(text)| ==> Parts(text)[j] == Column(tokens, j))
  {
    hide Column, Runs, Splittable, Width;
  }

  // The nodes of the parts behind the first are printed from the columns.
  lemma SubnodesAre(lex: Lexicon, select: string, marked: string)
    requires IsProgram(lex)
    ensures var tags := if '\\' in select then MultiNodes(lex, select, marked) else [];
      var tokens, cells := Runs(select, " "), PartCells(select);
      |tags| == |cells| && (tags != [] ==> Splittable(tokens)) && forall i :: 0 <= i < |tags| ==>
        && tags[i] == EmptyTag("NODE", marked + " " + Column(tokens, i + 1) + " ", true)
        && cells[i] == Cells(tokens, i + 1)
  {
    hide Cells, Column, Runs, Splittable, Width, Parts;
    assert lex.splitMulti(select) == Parts(select);
    hide IsProgram;
    PartsAre(select);
  }

  lemma SubnodesTell(lex: Lexicon, select: string, marked: string, mine: Attributes, ok: bool)
    requires IsProgram(lex) && Reads(" " + marked, mine, ok)
    ensures Tells(if '\\' in select then MultiNodes(lex, select, marked) else [],
                  SubnodesMarkup(mine, PartCells(select)), SubnodesRead(mine, ok, PartCells(select)))
  {
    hide IsProgram, Tells, Reads, SubnodeReads, CellAttributes, Cells, Column, Runs, MultiNodes, PartCells, Splittable;
    var cells, tokens := PartCells(select), Runs(select, " ");
    var tags := if '\\' in select then MultiNodes(lex, select, marked) else [];
    SubnodesAre(lex, select, marked);
    TokensAreFree(select);
    var markup := SubnodesMarkup(mine, cells);
    var oks := seq(|cells|, i requires 0 <= i < |cells| => SubnodeReads(mine, ok, cells[i]));
    forall i | 0 <= i < |tags|
      ensures Tells([tags[i]], [markup[i]], oks[i])
    {
      SubnodeTells(marked, mine, ok, tokens, i + 1);
    }
    AllTell(tags, markup, oks);
    SubnodesAllOf(mine, ok, cells, oks);
  }

  lemma SubnodeTells(marked: string, mine: Attributes, ok: bool, tokens: seq<string>, j: nat)
    requires Reads(" " + marked, mine, ok) && Splittable(tokens) && AreSpaceFree(tokens)
    ensures Tells([EmptyTag("NODE", marked + " " + Column(tokens, j) + " ", true)],
                  [EmptyElement("NODE", mine + CellAttributes(Cells(tokens, j)))],
                  SubnodeReads(mine, ok, Cells(tokens, j)))
  {
    hide Tells, Reads, IsDistinct, CellsSafe, CellAttributes, Cells, Column, IsName;
    ElementNames();
    var cells := Cells(tokens, j);
    ReadsSubnode(marked, mine, ok, tokens, j);
    ReadsElement(EmptyTag("NODE", marked + " " + Column(tokens, j) + " ", true), mine + CellAttributes(cells),
                 ok && CellsSafe(cells));
  }

  lemma SubnodesAllOf(mine: Attributes, ok: bool, cells: seq<seq<(string, string)>>, oks: seq<bool>)
    requires |oks| == |cells| && forall i :: 0 <= i < |oks| ==> oks[i] == SubnodeReads(mine, ok, cells[i])
    ensures AllOf(oks) <==> SubnodesRead(mine, ok, cells)
  {
    hide SubnodeReads;
    if AllOf(oks) {
      forall i | 0 <= i < |cells|
        ensures SubnodeReads(mine, ok, cells[i])
      {
        assert oks[i];
      }
    }
  }

  lemma TokensAreFree(text: string)
    ensures AreSpaceFree(Runs(text, " "))
  {
    RunsOfString(text, " ");
  }

  // ---- A NODE. ----

  ghost function InsertedMarkup(lex: Lexicon, pairs: Pairs, attributes: Attributes): seq<Markup>
  {
    var found := LookUpNode(lex, attributes);
    if Attribute(attributes, "unknown") != "" || found.None? || Unknown(found.value) then []
    else
      var f, its := found.value, LookUpPairs(pairs, attributes);
      FirstMarkup(f, its) + SecondMarkup(f, its)
      + SubnodesMarkup(MarkedAttributes(lex, attributes, f), PartCells(Selected(f)))
  }

  function FirstMarkup(f: LookUp, its: FoundPairs): seq<Markup>
  {
    if |f.trad| > 1 && !f.ambilem then SynonymsMarkup(its.trad)
    else if |f.trad| > 1 || (|f.trad| > 0 && |f.trad2| > 0) then SynonymsOfMarkup(its.trad, f.lem1)
    else []
  }

  function SecondMarkup(f: LookUp, its: FoundPairs): seq<Markup>
  {
    if |f.trad2| > 1 || (|f.trad2| > 0 && |f.trad| > 0) then SynonymsOfMarkup(its.trad2, f.lem2) else []
  }

  // All synonyms and parts are safe, and the lemmas printed with the synonyms.
  ghost predicate InsertedSafe(lex: Lexicon, pairs: Pairs, attributes: Attributes)
  {
    var found := LookUpNode(lex, attributes);
    Attribute(attributes, "unknown") == "" && found.Some? && !Unknown(found.value) ==>
      var f, its := found.value, LookUpPairs(pairs, attributes);
      && FirstSafe(f, its) && SecondSafe(f, its)
      && SubnodesRead(MarkedAttributes(lex, attributes, f), MarkedSafe(lex, attributes, f), PartCells(Selected(f)))
  }

  ghost predicate FirstSafe(f: LookUp, its: FoundPairs)
  {
    if |f.trad| > 1 && !f.ambilem then SynonymsSafe(its.trad)
    else |f.trad| > 1 || (|f.trad| > 0 && |f.trad2| > 0) ==> SynonymsOfSafe(its.trad, f.lem1)
  }

  ghost predicate SecondSafe(f: LookUp, its: FoundPairs)
  {
    |f.trad2| > 1 || (|f.trad2| > 0 && |f.trad| > 0) ==> SynonymsOfSafe(its.trad2, f.lem2)
  }

  lemma InsertedTell(lex: Lexicon, pairs: Pairs, attributes: Attributes)
    requires IsProgram(lex) && Translates(lex, pairs)
    ensures Tells(HeadOr(lex, attributes).inserted, InsertedMarkup(lex, pairs, attributes),
                  InsertedSafe(lex, pairs, attributes))
  {
    hide Tells, IsProgram, Translates, BaseText, Marked, MarkedAttributes, MarkedSafe, LookUpNode, LookUpPairs, Fits;
    hide FirstSynonyms, SecondSynonyms, MultiNodes, FirstMarkup, SecondMarkup, SubnodesMarkup, PartCells;
    hide Selected, FirstSafe, SecondSafe, SubnodesRead, Field, Reads;
    NothingTells();
    LookUpFits(lex, pairs, attributes);
    var found := LookUpNode(lex, attributes);
    if Attribute(attributes, "unknown") == "" && found.Some? && !Unknown(found.value) {
      var f, its := found.value, LookUpPairs(pairs, attributes);
      var marked := Marked(BaseText(lex, attributes), f);
      var mine, ok := MarkedAttributes(lex, attributes, f), MarkedSafe(lex, attributes, f);
      var select := Selected(f);
      ReadsMarked(lex, attributes, f);
      SubnodesTell(lex, select, marked, mine, ok);
      SynonymTagsTell(f, its);
      var first, second := FirstMarkup(f, its), SecondMarkup(f, its);
      var subnodes := if '\\' in select then MultiNodes(lex, select, marked) else [];
      TellsJoin(FirstSynonyms(f), first, FirstSafe(f, its), SecondSynonyms(f), second, SecondSafe(f, its));
      TellsJoin(FirstSynonyms(f) + SecondSynonyms(f), first + second, FirstSafe(f, its) && SecondSafe(f, its),
                subnodes, SubnodesMarkup(mine, PartCells(select)), SubnodesRead(mine, ok, PartCells(select)));
    }
  }

  lemma SynonymTagsTell(f: LookUp, its: FoundPairs)
    requires Fits(f, its)
    ensures Tells(FirstSynonyms(f), FirstMarkup(f, its), FirstSafe(f, its))
    ensures Tells(SecondSynonyms(f), SecondMarkup(f, its), SecondSafe(f, its))
  {
    hide Tells, SynonymsMarkup, SynonymsOfMarkup, Synonyms, SynonymsOf, SynonymsSafe, SynonymsOfSafe, AreTexts;
    NothingTells();
    SynonymsTell(f.trad, its.trad);
    SynonymsOfTell(f.trad, its.trad, f.lem1);
    SynonymsOfTell(f.trad2, its.trad2, f.lem2);
  }

  ghost function NodeMarkup(lex: Lexicon, pairs: Pairs, t: NodeTree): seq<Markup>
    decreases t, 0
  {
    var mine, inserted := HeadAttributes(lex, pairs, t.attributes), InsertedMarkup(lex, pairs, t.attributes);
    match t
    case EmptyNode(_) =>
      if HeadOr(lex, t.attributes).inserted == [] then [EmptyElement("NODE", mine)]
      else [StartTag("NODE", mine)] + inserted + [EndTag("NODE")]
    case InnerNode(_, nodes) => [StartTag("NODE", mine)] + inserted + NodesMarkup(lex, pairs, nodes) + [EndTag("NODE")]
  }

  ghost function NodesMarkup(lex: Lexicon, pairs: Pairs, ts: seq<NodeTree>): seq<Markup>
    decreases ts, 1
  {
    if ts == [] then [] else NodeMarkup(lex, pairs, ts[0]) + NodesMarkup(lex, pairs, ts[1..])
  }

  // The values of the parts can be read when the translation can; what is left are their names.
  ghost predicate PartsNamed(mine: Attributes, cells: seq<seq<(string, string)>>)
  {
    forall i :: 0 <= i < |cells| ==> PartNamed(mine, cells[i])
  }

  ghost predicate PartNamed(mine: Attributes, cells: seq<(string, string)>)
  {
    (forall k :: 0 <= k < |cells| ==> IsName(cells[k].0)) && IsDistinct(mine + CellAttributes(cells))
  }

  ghost predicate NodeHeadSafe(lex: Lexicon, pairs: Pairs, attributes: Attributes)
  {
    && HeadSafe(lex, pairs, attributes) && IsDistinct(HeadAttributes(lex, pairs, attributes))
    && var found := LookUpNode(lex, attributes);
       Attribute(attributes, "unknown") == "" && found.Some? && !Unknown(found.value) ==>
         var f, its := found.value, LookUpPairs(pairs, attributes);
         && FirstSafe(f, its) && SecondSafe(f, its)
         && PartsNamed(MarkedAttributes(lex, attributes, f), PartCells(Selected(f)))
  }

  lemma PartsAreReadable(pairs: Attributes)
    requires PairsSafe(pairs)
    ensures forall i, k :: 0 <= i < |PartCells(TextOf(pairs))| && 0 <= k < |PartCells(TextOf(pairs))[i]| ==>
      ReadValue(PartCells(TextOf(pairs))[i][k].1).Some?
  {
    hide ReadValue, Runs, Cells, PairsSafe, TextOf;
    var tokens := Runs(TextOf(pairs), " ");
    TextIsRead(pairs);
    RunsRead(TextOf(pairs), " ");
    if Splittable(tokens) {
      forall j: nat
        ensures forall k :: 0 <= k < |Cells(tokens, j)| ==> ReadValue(Cells(tokens, j)[k].1).Some?
      {
        CellsAreRead(tokens, j);
      }
    }
  }

  lemma NamedIff(mine: Attributes, pairs: Attributes)
    requires PairsSafe(pairs)
    ensures SubnodesRead(mine, true, PartCells(TextOf(pairs))) <==> PartsNamed(mine, PartCells(TextOf(pairs)))
  {
    hide ReadValue, PartCells, PairsSafe, TextOf, IsDistinct, IsName, CellAttributes;
    PartsAreReadable(pairs);
    var cells := PartCells(TextOf(pairs));
    forall i | 0 <= i < |cells|
      ensures SubnodeReads(mine, true, cells[i]) <==> PartNamed(mine, cells[i])
    {
    }
  }

  lemma NodeHeadSafeIff(lex: Lexicon, pairs: Pairs, attributes: Attributes)
    requires Translates(lex, pairs)
    ensures NodeHeadSafe(lex, pairs, attributes) <==>
      && HeadSafe(lex, pairs, attributes) && IsDistinct(HeadAttributes(lex, pairs, attributes))
      && InsertedSafe(lex, pairs, attributes)
  {
    hide IsDistinct, HeadAttributes, LookUpNode, LookUpPairs, BaseSafe, FieldSafe, MarkedAttributes, MarkedSafe;
    hide PairsSafe, FirstSafe, SecondSafe, PartsNamed, SubnodesRead, PartCells, Selected, SelectedPairs, Translates;
    hide TextOf, Fits;
    LookUpFits(lex, pairs, attributes);
    var found := LookUpNode(lex, attributes);
    if Attribute(attributes, "unknown") == "" && found.Some? && !Unknown(found.value) {
      var f, its := found.value, LookUpPairs(pairs, attributes);
      SelectedIsText(f, its);
      if MarkedSafe(lex, attributes, f) && PairsSafe(SelectedPairs(its)) {
        NamedIff(MarkedAttributes(lex, attributes, f), SelectedPairs(its));
      }
    }
  }

  ghost predicate NodeSafe(lex: Lexicon, pairs: Pairs, t: NodeTree)
  {
    && NodeHeadSafe(lex, pairs, t.attributes)
    && (t.InnerNode? ==> forall i :: 0 <= i < |t.nodes| ==> NodeSafe(lex, pairs, t.nodes[i]))
  }

  // An element with its children in two parts.
  lemma ElementJoin(open: Tag, start: Markup, ok: bool, us: seq<Tag>, ms: seq<Markup>, ok1: bool,
                    vs: seq<Tag>, ns: seq<Markup>, ok2: bool, name: string)
    requires IsName(name) && Tells([open], [start], ok) && Tells(us, ms, ok1) && Tells(vs, ns, ok2)
    ensures Tells([open] + us + vs + [CloseTag(name)], [start] + ms + ns + [EndTag(name)], ok && ok1 && ok2)
  {
    hide Tells, IsName;
    EndTagTells(name);
    TellsJoin([open], [start], ok, us, ms, ok1);
    TellsJoin([open] + us, [start] + ms, ok && ok1, vs, ns, ok2);
    TellsJoin([open] + us + vs, [start] + ms + ns, ok && ok1 && ok2, [CloseTag(name)], [EndTag(name)], true);
  }

  lemma HeadTells(lex: Lexicon, pairs: Pairs, attributes: Attributes, tag: Tag)
    requires IsProgram(lex) && Translates(lex, pairs)
    requires !tag.CloseTag? && tag.name == "NODE" && tag.text == HeadOr(lex, attributes).text
    ensures Tells([tag], [Meant(tag, HeadAttributes(lex, pairs, attributes))],
                  HeadSafe(lex, pairs, attributes) && IsDistinct(HeadAttributes(lex, pairs, attributes)))
  {
    hide Tells, Reads, IsProgram, Translates, HeadSafe, HeadAttributes, HeadOr, IsDistinct, IsName;
    ElementNames();
    ReadsHead(lex, pairs, attributes);
    ReadsElement(tag, HeadAttributes(lex, pairs, attributes), HeadSafe(lex, pairs, attributes));
  }

  // Nothing inserted is nothing printed.
  lemma NothingInserted(lex: Lexicon, pairs: Pairs, attributes: Attributes)
    requires IsProgram(lex) && Translates(lex, pairs) && HeadOr(lex, attributes).inserted == []
    ensures InsertedMarkup(lex, pairs, attributes) == [] && InsertedSafe(lex, pairs, attributes)
  {
    hide IsProgram, Translates, HeadOr, InsertedMarkup, InsertedSafe;
    InsertedTell(lex, pairs, attributes);
    TellsNothing(InsertedMarkup(lex, pairs, attributes), InsertedSafe(lex, pairs, attributes));
  }

  lemma TellsNothing(markup: seq<Markup>, ok: bool)
    requires Tells([], markup, ok)
    ensures ok && markup == []
  {
    assert TellsBefore([], markup, ok, "");
    assert PrintAll([]) + "" == "" && ReadMarkup("") == Some([]);
  }

  lemma {:induction false} NodeTells(lex: Lexicon, pairs: Pairs, t: NodeTree)
    requires IsProgram(lex) && Translates(lex, pairs)
    ensures Tells(NodeTags(lex, t), NodeMarkup(lex, pairs, t), NodeSafe(lex, pairs, t))
    decreases t, 0
  {
    hide Tells, IsProgram, Translates, HeadSafe, HeadAttributes, HeadOr, InsertedMarkup, InsertedSafe, IsDistinct;
    hide IsName, NodeHeadSafe;
    ElementNames();
    NothingTells();
    var head, mine := HeadOr(lex, t.attributes), HeadAttributes(lex, pairs, t.attributes);
    var inserted := InsertedMarkup(lex, pairs, t.attributes);
    var ok, ok1 := HeadSafe(lex, pairs, t.attributes) && IsDistinct(mine), InsertedSafe(lex, pairs, t.attributes);
    var open := OpenTag("NODE", head.text);
    HeadTells(lex, pairs, t.attributes, open);
    InsertedTell(lex, pairs, t.attributes);
    NodeHeadSafeIff(lex, pairs, t.attributes);
    if t.InnerNode? {
      NodesTell(lex, pairs, t.nodes);
      var children := forall i :: 0 <= i < |t.nodes| ==> NodeSafe(lex, pairs, t.nodes[i]);
      ElementJoin(open, StartTag("NODE", mine), ok, head.inserted, inserted, ok1,
                  NodesTags(lex, t.nodes), NodesMarkup(lex, pairs, t.nodes), children, "NODE");
    } else if head.inserted == [] {
      NothingInserted(lex, pairs, t.attributes);
      HeadTells(lex, pairs, t.attributes, EmptyTag("NODE", head.text, false));
    } else {
      ElementJoin(open, StartTag("NODE", mine), ok, head.inserted, inserted, ok1, [], [], true, "NODE");
      assert [open] + head.inserted + [] + [CloseTag("NODE")] == [open] + head.inserted + [CloseTag("NODE")];
      assert [StartTag("NODE", mine)] + inserted + [] + [EndTag("NODE")]
        == [StartTag("NODE", mine)] + inserted + [EndTag("NODE")];
    }
  }

  lemma {:induction false} NodesTell(lex: Lexicon, pairs: Pairs, ts: seq<NodeTree>)
    requires IsProgram(lex) && Translates(lex, pairs)
    ensures Tells(NodesTags(lex, ts), NodesMarkup(lex, pairs, ts),
                  forall i :: 0 <= i < |ts| ==> NodeSafe(lex, pairs, ts[i]))
    decreases ts, 1
  {
    hide Tells, IsProgram, Translates, NodeSafe, NodeTags, NodeMarkup;
    if ts == [] {
      NothingTells();
    } else {
      var later := forall i :: 0 <= i < |ts[1..]| ==> NodeSafe(lex, pairs, ts[1..][i]);
      NodeTells(lex, pairs, ts[0]);
      NodesTell(lex, pairs, ts[1..]);
      TellsJoin(NodeTags(lex, ts[0]), NodeMarkup(lex, pairs, ts[0]), NodeSafe(lex, pairs, ts[0]),
                NodesTags(lex, ts[1..]), NodesMarkup(lex, pairs, ts[1..]), later);
      assert ts == [ts[0]] + ts[1..];
      assert later && NodeSafe(lex, pairs, ts[0]) <==> forall i :: 0 <= i < |ts| ==> NodeSafe(lex, pairs, ts[i]);
    }
  }

  // ---- CHUNK and SENTENCE. ----

  // What the XML reader gives: attributes with names, none twice.
  ghost predicate IsXml(attributes: Attributes)
  {
    HasNames(attributes) && IsDistinct(attributes)
  }

  ghost predicate ChunkIsXml(t: ChunkTree)
  {
    IsXml(t.attributes) && forall i :: 0 <= i < |t.chunks| ==> ChunkIsXml(t.chunks[i])
  }

  ghost predicate SentenceIsXml(t: SentenceTree)
  {
    IsXml(t.attributes) && forall i :: 0 <= i < |t.chunks| ==> ChunkIsXml(t.chunks[i])
  }

  function TypeOf(lex: Lexicon, attributes: Attributes): string
  {
    var oldType, si := Attribute(attributes, "type"), Attribute(attributes, "si");
    var key := if oldType == "" then si else oldType;
    if lex.chunkType(key) == "" then key else lex.chunkType(key)
  }

  function ChunkAttributes(lex: Lexicon, attributes: Attributes): Attributes
  {
    [("ref", Attribute(attributes, "ord"))] + [("type", TypeOf(lex, attributes))]
    + Except(Except(attributes, "ord"), "type")
  }

  ghost predicate ChunkHeadSafe(lex: Lexicon, attributes: Attributes)
  {
    && FieldSafe(Attribute(attributes, "ord")) && FieldSafe(TypeOf(lex, attributes))
    && AllWellKept(Except(attributes, "ord")) && IsDistinct(ChunkAttributes(lex, attributes))
  }

  lemma ExceptIsXml(attributes: Attributes, name: string)
    requires IsXml(attributes)
    ensures IsXml(Except(attributes, name))
  {
    hide HasNames, IsDistinct;
    ExceptNames(attributes, name);
  }

  // The kept text is read as the other attributes exactly when they are well kept, and then the tag ends.
  lemma ReadsKept(attributes: Attributes, rest: string)
    requires IsXml(attributes) && Continues(rest)
    ensures var r := ReadRest(Escape(KeptText(attributes)) + (">\n" + rest));
      var others := Except(attributes, "type");
      if AllWellKept(attributes) then r == Some(Rest(others, false, "\n" + rest))
      else r.Some? && !r.value.isEmpty ==> r.value.attributes != others
  {
    hide ReadRest, HasNames, IsDistinct, AllListedSafe, AllWellKept, KeptText, AttributesText, Escape, Reads;
    var others, text := Except(attributes, "type"), KeptText(attributes);
    KeptIff(attributes);
    ExceptIsXml(attributes, "type");
    ReadsListed(others);
    ListedSafeIs(others);
    if text == AttributesText(others) {
      TextRead(Escape(text), others, AllListedSafe(others), rest);
    } else {
      OtherText(attributes, rest);
    }
  }

  lemma ListedSafeIs(attributes: Attributes)
    ensures AllListedSafe(attributes) <==> forall i :: 0 <= i < |attributes| ==> ListedSafe(attributes[i].1)
  {
  }

  lemma TextRead(text: string, attributes: Attributes, ok: bool, rest: string)
    requires Reads(text, attributes, ok)
    ensures var r := ReadRest(text + (">\n" + rest));
      if ok then r == Some(Rest(attributes, false, "\n" + rest)) else !BeginsWith(attributes, r)
  {
    var ps, trail :| ReadsAs(text, attributes, ok, ps, trail);
    hide ReadRest, PiecesText, Spaces, AreHonest, AreReadable, BeginsWith;
    var end := Spaces(trail) + (">\n" + rest);
    PiecesAreRead(ps, end);
    EndIsRead(OpenTag("", ""), trail, rest);
    assert text + (">\n" + rest) == PiecesText(ps) + end;
    assert attributes + [] == attributes;
  }

  lemma EscapeIsClean(text: string)
    ensures '<' !in Escape(text) && '>' !in Escape(text) && Decode(Escape(text)) == text
  {
    hide EscapeFrom, Decode, StartsEntity;
    EscapedIsClean(None, text);
    DecodeEscape(None, text);
  }

  lemma KeptIsSingle(attributes: Attributes)
    ensures var text := KeptText(attributes);
      SingleSpaced(text) && (text != "" ==> text[|text| - 1] != ' ')
  {
    hide AttributesText, Runs, Spaced, DropFirst, SingleSpaced;
    LeftAreWords(AttributesText(attributes));
    SpacedIsSingle(DropFirst(Runs(AttributesText(attributes), " "), "type"));
  }

  // Another text than that of the attributes is not read as them.
  lemma OtherText(attributes: Attributes, rest: string)
    requires Continues(rest) && KeptText(attributes) != AttributesText(Except(attributes, "type"))
    ensures var r := ReadRest(Escape(KeptText(attributes)) + (">\n" + rest));
      r.Some? && !r.value.isEmpty ==> r.value.attributes != Except(attributes, "type")
  {
    hide ReadRest, AttributesText, Except, IsSpelling, KeptText, Escape, Decode, SingleSpaced;
    var text, others := KeptText(attributes), Except(attributes, "type");
    EscapeIsClean(text);
    TextIsSpelled(Escape(text), rest);
    KeptIsSingle(attributes);
    if IsSpelling(text, others) {
      SpellingIsText(text, others);
    }
  }

  // The two attributes in front of the kept ones.
  function ChunkPieces(lex: Lexicon, attributes: Attributes): seq<Piece>
  {
    [FieldPiece("ref", Attribute(attributes, "ord"))] + [FieldPiece("type", TypeOf(lex, attributes))]
  }

  lemma ChunkPiecesAre(lex: Lexicon, attributes: Attributes)
    requires IsProgram(lex)
    ensures var ps := ChunkPieces(lex, attributes);
      && AreHonest(ps)
      && (AreReadable(ps) <==> FieldSafe(Attribute(attributes, "ord")) && FieldSafe(TypeOf(lex, attributes)))
      && ChunkAttributes(lex, attributes) == Values(ps) + Except(Except(attributes, "ord"), "type")
      && " " + ChunkText(lex, attributes) == PiecesText(ps) + Escape(KeptText(Except(attributes, "ord")))
  {
    hide IsProgram, Escape, FieldSafe, IsHonest, IsReadable, IsName, KeptText, Except, Attribute, TypeOf, ChunkText;
    hide PieceText, PiecesText;
    Names();
    var ord, chunkType := Attribute(attributes, "ord"), TypeOf(lex, attributes);
    var first, second := FieldPiece("ref", ord), FieldPiece("type", chunkType);
    FieldIsRead("ref", ord);
    FieldIsRead("type", chunkType);
    assert [first] + [second] == [first, second];
    ReadableStep(first, [second]);
    ReadableStep(second, []);
    assert [second] + [] == [second];
    TwoPieces(first, second);
    ChunkTextParts(lex, attributes);
  }

  lemma ChunkTextParts(lex: Lexicon, attributes: Attributes)
    requires IsProgram(lex)
    ensures " " + ChunkText(lex, attributes)
      == PieceText(FieldPiece("ref", Attribute(attributes, "ord")))
         + PieceText(FieldPiece("type", TypeOf(lex, attributes))) + Escape(KeptText(Except(attributes, "ord")))
  {
    hide Escape, KeptText, Except, Attribute;
    var ord, chunkType := Attribute(attributes, "ord"), TypeOf(lex, attributes);
    assert lex.escape(ord) == Escape(ord) && lex.escape(chunkType) == Escape(chunkType);
    var kept := lex.allExceptOrdAndType(attributes);
    assert lex.escape(kept) == Escape(kept) && kept == KeptText(Except(attributes, "ord"));
    hide IsProgram;
    assert Spaces(1) == " ";
    Spread(Field(lex, "ref", ord), Field(lex, "type", chunkType), Escape(kept));
  }

  lemma Spread(s: string, t: string, u: string)
    ensures " " + (s + " " + t + u) == (" " + s) + (" " + t) + u
  {
  }

  lemma TwoPieces(first: Piece, second: Piece)
    ensures PiecesText([first] + [second]) == PieceText(first) + PieceText(second)
  {
    hide PieceText;
    var ps := [first] + [second];
    assert ps[1..] == [second] && [second][1..] == [];
    assert PiecesText([]) == "" && PieceText(second) + "" == PieceText(second);
    assert PiecesText([second]) == PieceText(second) + PiecesText([second][1..]);
    assert PiecesText(ps) == PieceText(ps[0]) + PiecesText(ps[1..]);
  }

  lemma ChunkHeadReads(lex: Lexicon, attributes: Attributes, rest: string)
    requires IsProgram(lex) && IsXml(attributes) && Continues(rest)
    ensures TagReads(OpenTag("CHUNK", ChunkText(lex, attributes)), StartTag("CHUNK", ChunkAttributes(lex, attributes)),
                     ChunkHeadSafe(lex, attributes), rest)
  {
    hide IsProgram, ReadRest, AreReadable, AreHonest, IsDistinct, PiecesText, Escape, KeptText, ChunkText, FieldSafe;
    hide ChunkPieces, Except, AllWellKept, ReadTag, Print, IsName, HasNames, TypeOf, ChunkAttributes, Attribute;
    ElementNames();
    var tag, ps := OpenTag("CHUNK", ChunkText(lex, attributes)), ChunkPieces(lex, attributes);
    var kept, others := Except(attributes, "ord"), Except(Except(attributes, "ord"), "type");
    ChunkPiecesAre(lex, attributes);
    ExceptIsXml(attributes, "ord");
    ReadsKept(kept, rest);
    var more := Escape(KeptText(kept)) + (">\n" + rest);
    var text := PiecesText(ps) + more;
    assert " " + tag.text + (End(tag) + rest) == text;
    TagStep(tag, text, rest);
    PiecesAreRead(ps, more);
    SameBehind(Values(ps), others, ReadRest(more), ReadRest(text));
  }

  lemma SameBehind(first: Attributes, others: Attributes, more: Option<Rest>, all: Option<Rest>)
    ensures all == ConsAll(first, more) && all.Some? && all.value.attributes == first + others ==>
      more.Some? && more.value.attributes == others
    ensures all.Some? && all.value.attributes == first + others ==> BeginsWith(first, all)
  {
    if all == ConsAll(first, more) && all.Some? && all.value.attributes == first + others {
      assert (first + more.value.attributes)[|first|..] == more.value.attributes;
      assert (first + others)[|first|..] == others;
    }
  }

  lemma ChunkHeadTells(lex: Lexicon, attributes: Attributes)
    requires IsProgram(lex) && IsXml(attributes)
    ensures Tells([OpenTag("CHUNK", ChunkText(lex, attributes))], [StartTag("CHUNK", ChunkAttributes(lex, attributes))],
                  ChunkHeadSafe(lex, attributes))
  {
    hide IsProgram, IsXml, ChunkText, ChunkAttributes, ChunkHeadSafe, TagReads, Tells, Continues;
    var tag := OpenTag("CHUNK", ChunkText(lex, attributes));
    var markup := StartTag("CHUNK", ChunkAttributes(lex, attributes));
    forall rest | Continues(rest)
      ensures TagReads(tag, markup, ChunkHeadSafe(lex, attributes), rest)
    {
      ChunkHeadReads(lex, attributes, rest);
    }
    OneTells(tag, markup, ChunkHeadSafe(lex, attributes));
  }

  ghost function ChunkMarkup(lex: Lexicon, pairs: Pairs, t: ChunkTree): seq<Markup>
    decreases t, 0
  {
    [StartTag("CHUNK", ChunkAttributes(lex, t.attributes))] + NodeMarkup(lex, pairs, t.node)
    + ChunksMarkup(lex, pairs, t.chunks) + [EndTag("CHUNK")]
  }

  ghost function ChunksMarkup(lex: Lexicon, pairs: Pairs, ts: seq<ChunkTree>): seq<Markup>
    decreases ts, 1
  {
    if ts == [] then [] else ChunkMarkup(lex, pairs, ts[0]) + ChunksMarkup(lex, pairs, ts[1..])
  }

  ghost predicate ChunkSafe(lex: Lexicon, pairs: Pairs, t: ChunkTree)
  {
    && ChunkHeadSafe(lex, t.attributes) && NodeSafe(lex, pairs, t.node)
    && forall i :: 0 <= i < |t.chunks| ==> ChunkSafe(lex, pairs, t.chunks[i])
  }

  lemma {:induction false} ChunkTells(lex: Lexicon, pairs: Pairs, t: ChunkTree)
    requires IsProgram(lex) && Translates(lex, pairs) && ChunkIsXml(t)
    ensures Tells(ChunkTags(lex, t), ChunkMarkup(lex, pairs, t), ChunkSafe(lex, pairs, t))
    decreases t, 0
  {
    hide Tells, IsProgram, Translates, IsXml, ChunkHeadSafe, ChunkAttributes, ChunkText, NodeSafe, NodeTags, NodeMarkup;
    hide IsName;
    ElementNames();
    ChunkHeadTells(lex, t.attributes);
    NodeTells(lex, pairs, t.node);
    ChunksTell(lex, pairs, t.chunks);
    var children := forall i :: 0 <= i < |t.chunks| ==> ChunkSafe(lex, pairs, t.chunks[i]);
    ElementJoin(OpenTag("CHUNK", ChunkText(lex, t.attributes)), StartTag("CHUNK", ChunkAttributes(lex, t.attributes)),
                ChunkHeadSafe(lex, t.attributes), NodeTags(lex, t.node), NodeMarkup(lex, pairs, t.node),
                NodeSafe(lex, pairs, t.node), ChunksTags(lex, t.chunks), ChunksMarkup(lex, pairs, t.chunks), children,
                "CHUNK");
  }

  lemma {:induction false} ChunksTell(lex: Lexicon, pairs: Pairs, ts: seq<ChunkTree>)
    requires IsProgram(lex) && Translates(lex, pairs) && forall i :: 0 <= i < |ts| ==> ChunkIsXml(ts[i])
    ensures Tells(ChunksTags(lex, ts), ChunksMarkup(lex, pairs, ts),
                  forall i :: 0 <= i < |ts| ==> ChunkSafe(lex, pairs, ts[i]))
    decreases ts, 1
  {
    hide Tells, IsProgram, Translates, ChunkSafe, ChunkTags, ChunkMarkup, ChunkIsXml;
    if ts == [] {
      NothingTells();
    } else {
      var later := forall i :: 0 <= i < |ts[1..]| ==> ChunkSafe(lex, pairs, ts[1..][i]);
      ChunkTells(lex, pairs, ts[0]);
      ChunksTell(lex, pairs, ts[1..]);
      TellsJoin(ChunkTags(lex, ts[0]), ChunkMarkup(lex, pairs, ts[0]), ChunkSafe(lex, pairs, ts[0]),
                ChunksTags(lex, ts[1..]), ChunksMarkup(lex, pairs, ts[1..]), later);
      assert ts == [ts[0]] + ts[1..];
      assert later && ChunkSafe(lex, pairs, ts[0]) <==> forall i :: 0 <= i < |ts| ==> ChunkSafe(lex, pairs, ts[i]);
    }
  }

  function SentenceAttributes(attributes: Attributes): Attributes
  {
    [("ref", Attribute(attributes, "ord"))] + Except(attributes, "ord")
  }

  ghost predicate SentenceHeadSafe(attributes: Attributes)
  {
    && FieldSafe(Attribute(attributes, "ord")) && AllListedSafe(Except(attributes, "ord"))
    && IsDistinct(SentenceAttributes(attributes))
  }

  lemma SentenceHeadTells(lex: Lexicon, attributes: Attributes)
    requires IsProgram(lex) && IsXml(attributes)
    ensures Tells([OpenTag("SENTENCE", SentenceText(lex, attributes))],
                  [StartTag("SENTENCE", SentenceAttributes(attributes))], SentenceHeadSafe(attributes))
  {
    hide Escape, FieldSafe, IsName, Except, Attribute, Reads, Tells, AttributesText, IsDistinct, ListedSafe, Field;
    Names();
    ElementNames();
    var ord, others := Attribute(attributes, "ord"), Except(attributes, "ord");
    assert lex.allExceptOrd(attributes) == AttributesText(others);
    assert lex.escape(AttributesText(others)) == Escape(AttributesText(others));
    ReadsOne(lex, "ref", ord);
    hide IsProgram, HasNames;
    ExceptIsXml(attributes, "ord");
    ReadsListed(others);
    ListedSafeIs(others);
    var text := Escape(AttributesText(others));
    ReadsJoin(" " + Field(lex, "ref", ord), [("ref", ord)], FieldSafe(ord), text, others, AllListedSafe(others));
    var tag := OpenTag("SENTENCE", SentenceText(lex, attributes));
    assert " " + Field(lex, "ref", ord) + text == " " + tag.text;
    ReadsElement(tag, SentenceAttributes(attributes), FieldSafe(ord) && AllListedSafe(others));
  }

  ghost function SentenceMarkup(lex: Lexicon, pairs: Pairs, t: SentenceTree): seq<Markup>
  {
    [StartTag("SENTENCE", SentenceAttributes(t.attributes))] + ChunksMarkup(lex, pairs, t.chunks) + [EndTag("SENTENCE")]
  }

  ghost predicate SentenceSafe(lex: Lexicon, pairs: Pairs, t: SentenceTree)
  {
    && SentenceHeadSafe(t.attributes)
    && forall i :: 0 <= i < |t.chunks| ==> ChunkSafe(lex, pairs, t.chunks[i])
  }

  lemma SentenceTells(lex: Lexicon, pairs: Pairs, t: SentenceTree)
    requires IsProgram(lex) && Translates(lex, pairs) && SentenceIsXml(t)
    ensures Tells(SentenceTags(lex, t), SentenceMarkup(lex, pairs, t), SentenceSafe(lex, pairs, t))
  {
    hide Tells, IsProgram, Translates, IsXml, SentenceHeadSafe, SentenceAttributes, SentenceText, ChunkSafe, ChunkIsXml;
    hide IsName, ChunksTags, ChunksMarkup;
    ElementNames();
    NothingTells();
    SentenceHeadTells(lex, t.attributes);
    ChunksTell(lex, pairs, t.chunks);
    var children := forall i :: 0 <= i < |t.chunks| ==> ChunkSafe(lex, pairs, t.chunks[i]);
    var open := OpenTag("SENTENCE", SentenceText(lex, t.attributes));
    var start := StartTag("SENTENCE", SentenceAttributes(t.attributes));
    ElementJoin(open, start, SentenceHeadSafe(t.attributes), ChunksTags(lex, t.chunks),
                ChunksMarkup(lex, pairs, t.chunks), children, [], [], true, "SENTENCE");
    assert [open] + ChunksTags(lex, t.chunks) + [] + [CloseTag("SENTENCE")]
      == [open] + ChunksTags(lex, t.chunks) + [CloseTag("SENTENCE")];
    assert [start] + ChunksMarkup(lex, pairs, t.chunks) + [] + [EndTag("SENTENCE")]
      == [start] + ChunksMarkup(lex, pairs, t.chunks) + [EndTag("SENTENCE")];
  }

  // What a reader sees of the tags.
  function MarkupBrackets(markup: seq<Markup>): seq<Bracket>
  {
    if markup == [] then []
    else
      (match markup[0]
       case StartTag(name, _) => [Left(name)]
       case EndTag(name) => [Right(name)]
       case EmptyElement(name, _) => [Left(name), Right(name)])
      + MarkupBrackets(markup[1..])
  }

  lemma {:induction false} SameBrackets(tags: seq<Tag>, markup: seq<Markup>)
    requires |tags| == |markup| && forall i :: 0 <= i < |tags| ==> Matches(tags[i], markup[i])
    ensures MarkupBrackets(markup) == TagBrackets(tags, true)
  {
    if tags == [] {
    } else {
      SameBrackets(tags[1..], markup[1..]);
      assert Matches(tags[0], markup[0]);
    }
  }

  // A printed sentence is read as it was meant, tag by tag and attribute by attribute, if and only if the
  // attribute values, the lemmas printed as they are and the translations are safe. What was meant is well
  // nested.
  lemma SentenceReadsBackIff(lex: Lexicon, pairs: Pairs, t: SentenceTree)
    requires IsProgram(lex) && Translates(lex, pairs) && SentenceIsXml(t)
    ensures ReadMarkup(PrintAll(SentenceTags(lex, t))) == Some(SentenceMarkup(lex, pairs, t))
      <==> SentenceSafe(lex, pairs, t)
    ensures Nested(MarkupBrackets(SentenceMarkup(lex, pairs, t)), [])
  {
    hide TellsBefore, ReadMarkup, SentenceTags, SentenceMarkup, SentenceSafe, IsProgram, Translates, SentenceIsXml;
    hide Matches, Nested, MarkupBrackets, TagBrackets;
    SentenceTells(lex, pairs, t);
    TellsAll(SentenceTags(lex, t), SentenceMarkup(lex, pairs, t), SentenceSafe(lex, pairs, t));
    SameBrackets(SentenceTags(lex, t), SentenceMarkup(lex, pairs, t));
    SentenceNested(lex, t);
  }

  lemma TellsAll(tags: seq<Tag>, markup: seq<Markup>, ok: bool)
    requires Tells(tags, markup, ok)
    ensures ReadMarkup(PrintAll(tags)) == Some(markup) <==> ok
  {
    assert TellsBefore(tags, markup, ok, "");
    assert PrintAll(tags) + "" == PrintAll(tags) && markup + [] == markup;
    assert ReadMarkup("") == Some([]);
  }
}
