// The documents the lexical transfer reads and writes: XML reader events, the trees they spell, and
// the tags printed for a tree (squoia_xfer_lex.cc).
module TransferGrammar {
  import opened Options
  import opened Strings

  type Attributes = seq<(string, string)>

  // What the XML reader reports for one node. Other stands for comments and the like.
  datatype Event =
    | Element(name: string, attributes: Attributes, isEmpty: bool)
    | EndElement(name: string)
    | Text
    | DocType
    | Other

  // nextTag skips text and document type nodes and nothing else.
  predicate Skipped(e: Event)
  {
    e.Text? || e.DocType?
  }

  function Significant(events: seq<Event>): seq<Event>
  {
    if events == [] then []
    else (if Skipped(events[0]) then [] else [events[0]]) + Significant(events[1..])
  }

  // No name comes twice.
  predicate IsDistinct(attributes: Attributes)
  {
    forall i, j :: 0 <= i < j < |attributes| ==> attributes[i].0 != attributes[j].0
  }

  // attrib(): the empty string stands for a missing attribute.
  function Attribute(attributes: Attributes, name: string): string
  {
    if attributes == [] then ""
    else if attributes[0].0 == name then attributes[0].1
    else Attribute(attributes[1..], name)
  }

  // Everything the transfer consults. translate is the bilingual dictionary, already split into its
  // alternatives: no alternative for an unknown word.
  datatype Lexicon = Lexicon(
    translate: (string, string) -> seq<string>,
    escape: string -> string,
    upperType: (string, string, string) -> string,
    chunkType: string -> string,
    splitMulti: string -> seq<string>,
    allExceptOrd: Attributes -> string,
    allExceptOrdAndType: Attributes -> string)

  // ---- Output tags. Inserted tags have no counterpart in the input. ----

  datatype Tag =
    | OpenTag(name: string, text: string)
    | CloseTag(name: string)
    | EmptyTag(name: string, text: string, inserted: bool)

  function Print(tag: Tag): string
  {
    match tag
    case OpenTag(name, text) => "<" + name + " " + text + ">\n"
    case CloseTag(name) => "</" + name + ">\n"
    case EmptyTag(name, text, _) => "<" + name + " " + text + "/>\n"
  }

  // ---- What is printed for the start of a NODE: its attribute text and the inserted children. ----

  datatype NodeHead = NodeHead(text: string, inserted: seq<Tag>)

  function Field(lex: Lexicon, name: string, value: string): string
  {
    name + "='" + lex.escape(value) + "'"
  }

  function Synonyms(translations: seq<string>): seq<Tag>
  {
    seq(|translations|, i requires 0 <= i < |translations| => EmptyTag("SYN", translations[i], true))
  }

  function SynonymsOf(translations: seq<string>, slem: string): seq<Tag>
  {
    seq(|translations|, i requires 0 <= i < |translations| =>
      EmptyTag("SYN", translations[i] + " slem='" + slem + "' ", true))
  }

  // The parts of a multi-word translation after the first become empty NODE children.
  function MultiNodes(lex: Lexicon, full: string, text: string): seq<Tag>
  {
    var parts := lex.splitMulti(full);
    if |parts| <= 1 then []
    else seq(|parts| - 1, i requires 0 <= i < |parts| - 1 => EmptyTag("NODE", text + " " + parts[i + 1] + " ", true))
  }

  // The translations looked up for a NODE. None when the source throws: the second of two ambiguous
  // lemmas starts two places after the '#'.
  datatype LookUp = LookUp(trad: seq<string>, trad2: seq<string>, lem1: string, lem2: string, ambilem: bool)

  function LookUpNode(lex: Lexicon, attributes: Attributes): Option<LookUp>
  {
    var lem, mi := Attribute(attributes, "lem"), Attribute(attributes, "mi");
    if "Z" <= mi || "DN" <= mi then
      Some(LookUp(lex.translate(Attribute(attributes, "form"), mi), [], "", "", false))
    else
      var split := Find(lem, '#', 0);
      if split == |lem| then Some(LookUp(lex.translate(lem, mi), [], "", "", false))
      else if split + 2 > |lem| then None
      else
        var lem1, lem2 := lem[..split], lem[split + 2..];
        Some(LookUp(lex.translate(lem1, mi), lex.translate(lem2, mi), lem1, lem2, true))
  }

  function BaseText(lex: Lexicon, attributes: Attributes): string
  {
    var at := (name: string) => Attribute(attributes, name);
    Field(lex, "ref", at("ord")) + " " + Field(lex, "alloc", at("alloc")) + " " +
    Field(lex, "slem", at("lem")) + " " + Field(lex, "smi", at("mi")) + " " + Field(lex, "sform", at("form")) + " " +
    Field(lex, "UpCase", lex.upperType(at("form"), at("mi"), at("ord")))
  }

  function HeadOf(lex: Lexicon, attributes: Attributes): Option<NodeHead>
  {
    var base, unknown := BaseText(lex, attributes), Attribute(attributes, "unknown");
    if unknown != "" then Some(NodeHead(base + " " + Field(lex, "unknown", unknown), []))
    else
      var found := LookUpNode(lex, attributes);
      if found.None? then None
      else Some(TranslatedHead(lex, base, found.value))
  }

  predicate Unknown(found: LookUp)
  {
    found.trad == [] && found.trad2 == []
  }

  function Selected(found: LookUp): string
    requires !Unknown(found)
  {
    if found.trad != [] then found.trad[0] else found.trad2[0]
  }

  // tradlem says which of two ambiguous lemmas the first translation belongs to.
  function Marked(base: string, found: LookUp): string
  {
    if !found.ambilem then base
    else base + " tradlem='" + (if found.trad != [] then found.lem1 else found.lem2) + "' "
  }

  function FirstSynonyms(found: LookUp): seq<Tag>
  {
    if |found.trad| > 1 && !found.ambilem then Synonyms(found.trad)
    else if |found.trad| > 1 || (|found.trad| > 0 && |found.trad2| > 0) then SynonymsOf(found.trad, found.lem1)
    else []
  }

  function SecondSynonyms(found: LookUp): seq<Tag>
  {
    if |found.trad2| > 1 || (|found.trad2| > 0 && |found.trad| > 0) then SynonymsOf(found.trad2, found.lem2) else []
  }

  function TranslatedHead(lex: Lexicon, base: string, found: LookUp): NodeHead
  {
    if Unknown(found) then NodeHead(base + " unknown='transfer'", [])
    else
      var select, marked := Selected(found), Marked(base, found);
      var subnodes := if '\\' in select then MultiNodes(lex, select, marked) else [];
      NodeHead(marked + " " + select, FirstSynonyms(found) + SecondSynonyms(found) + subnodes)
  }

  function ChunkText(lex: Lexicon, attributes: Attributes): string
  {
    var oldType, si := Attribute(attributes, "type"), Attribute(attributes, "si");
    var key := if oldType == "" then si else oldType;
    var chunkType := if lex.chunkType(key) == "" then key else lex.chunkType(key);
    Field(lex, "ref", Attribute(attributes, "ord")) + " " + Field(lex, "type", chunkType) +
    lex.escape(lex.allExceptOrdAndType(attributes))
  }

  function SentenceText(lex: Lexicon, attributes: Attributes): string
  {
    Field(lex, "ref", Attribute(attributes, "ord")) + lex.escape(lex.allExceptOrd(attributes))
  }

  // ---- Trees: SENTENCE(CHUNK*), CHUNK(NODE CHUNK*), NODE(NODE*). ----

  // A NODE is an empty element or has a start and an end.
  datatype NodeTree = EmptyNode(attributes: Attributes) | InnerNode(attributes: Attributes, nodes: seq<NodeTree>)

  // Whether a CHUNK or SENTENCE start is marked empty is not looked at.
  datatype ChunkTree = ChunkTree(attributes: Attributes, isEmpty: bool, node: NodeTree, chunks: seq<ChunkTree>)

  datatype SentenceTree = SentenceTree(attributes: Attributes, isEmpty: bool, chunks: seq<ChunkTree>)

  function NodeEvents(t: NodeTree): seq<Event>
    decreases t, 0
  {
    match t
    case EmptyNode(attributes) => [Element("NODE", attributes, true)]
    case InnerNode(attributes, nodes) =>
      [Element("NODE", attributes, false)] + NodesEvents(nodes) + [EndElement("NODE")]
  }

  function NodesEvents(ts: seq<NodeTree>): seq<Event>
    decreases ts, 1
  {
    if ts == [] then [] else NodeEvents(ts[0]) + NodesEvents(ts[1..])
  }

  function ChunkEvents(t: ChunkTree): seq<Event>
    decreases t, 0
  {
    [Element("CHUNK", t.attributes, t.isEmpty)] + NodeEvents(t.node) + ChunksEvents(t.chunks) + [EndElement("CHUNK")]
  }

  function ChunksEvents(ts: seq<ChunkTree>): seq<Event>
    decreases ts, 1
  {
    if ts == [] then [] else ChunkEvents(ts[0]) + ChunksEvents(ts[1..])
  }

  function SentenceEvents(t: SentenceTree): seq<Event>
  {
    [Element("SENTENCE", t.attributes, t.isEmpty)] + ChunksEvents(t.chunks) + [EndElement("SENTENCE")]
  }

  // No NODE makes the source throw.
  ghost predicate NodeOk(lex: Lexicon, t: NodeTree)
  {
    HeadOf(lex, t.attributes).Some? && (t.InnerNode? ==> forall i :: 0 <= i < |t.nodes| ==> NodeOk(lex, t.nodes[i]))
  }

  ghost predicate ChunkOk(lex: Lexicon, t: ChunkTree)
  {
    NodeOk(lex, t.node) && forall i :: 0 <= i < |t.chunks| ==> ChunkOk(lex, t.chunks[i])
  }

  ghost predicate SentenceOk(lex: Lexicon, t: SentenceTree)
  {
    forall i :: 0 <= i < |t.chunks| ==> ChunkOk(lex, t.chunks[i])
  }

  // ---- What is printed for a tree. ----

  function HeadOr(lex: Lexicon, attributes: Attributes): NodeHead
  {
    var head := HeadOf(lex, attributes);
    if head.Some? then head.value else NodeHead("", [])
  }

  function NodeTags(lex: Lexicon, t: NodeTree): seq<Tag>
    decreases t, 0
  {
    var head := HeadOr(lex, t.attributes);
    match t
    case EmptyNode(_) =>
      if head.inserted == [] then [EmptyTag("NODE", head.text, false)]
      else [OpenTag("NODE", head.text)] + head.inserted + [CloseTag("NODE")]
    case InnerNode(_, nodes) =>
      [OpenTag("NODE", head.text)] + head.inserted + NodesTags(lex, nodes) + [CloseTag("NODE")]
  }

  function NodesTags(lex: Lexicon, ts: seq<NodeTree>): seq<Tag>
    decreases ts, 1
  {
    if ts == [] then [] else NodeTags(lex, ts[0]) + NodesTags(lex, ts[1..])
  }

  function ChunkTags(lex: Lexicon, t: ChunkTree): seq<Tag>
    decreases t, 0
  {
    [OpenTag("CHUNK", ChunkText(lex, t.attributes))] + NodeTags(lex, t.node) + ChunksTags(lex, t.chunks) +
    [CloseTag("CHUNK")]
  }

  function ChunksTags(lex: Lexicon, ts: seq<ChunkTree>): seq<Tag>
    decreases ts, 1
  {
    if ts == [] then [] else ChunkTags(lex, ts[0]) + ChunksTags(lex, ts[1..])
  }

  function SentenceTags(lex: Lexicon, t: SentenceTree): seq<Tag>
  {
    [OpenTag("SENTENCE", SentenceText(lex, t.attributes))] + ChunksTags(lex, t.chunks) + [CloseTag("SENTENCE")]
  }

  // ---- Brackets: the skeleton of a document. ----

  datatype Bracket = Left(name: string) | Right(name: string)

  function EventBrackets(events: seq<Event>): seq<Bracket>
  {
    if events == [] then []
    else
      (match events[0]
       case Element(name, _, isEmpty) => if isEmpty && name == "NODE" then [Left(name), Right(name)] else [Left(name)]
       case EndElement(name) => [Right(name)]
       case _ => [])
      + EventBrackets(events[1..])
  }

  // keepInserted selects whether the tags without a counterpart in the input are erased.
  function TagBrackets(tags: seq<Tag>, keepInserted: bool): seq<Bracket>
  {
    if tags == [] then []
    else
      (match tags[0]
       case OpenTag(name, _) => [Left(name)]
       case CloseTag(name) => [Right(name)]
       case EmptyTag(name, _, inserted) => if inserted && !keepInserted then [] else [Left(name), Right(name)])
      + TagBrackets(tags[1..], keepInserted)
  }

  // Matching brackets against a stack of open names.
  predicate Nested(brackets: seq<Bracket>, stack: seq<string>)
  {
    if brackets == [] then stack == []
    else
      match brackets[0]
      case Left(name) => Nested(brackets[1..], [name] + stack)
      case Right(name) => stack != [] && stack[0] == name && Nested(brackets[1..], stack[1..])
  }
}
