// The recursive descent of the lexical transfer as a function on the significant events, and its
// correctness against the grammar: it accepts exactly what the trees spell, and prints the tree.
module TransferParsing {
  import opened Options
  import opened TransferGrammar

  predicate StartsElement(es: seq<Event>, name: string)
  {
    es != [] && es[0].Element? && es[0].name == name
  }

  predicate StartsEnd(es: seq<Event>, name: string)
  {
    es != [] && es[0] == EndElement(name)
  }

  function ParseNode(lex: Lexicon, es: seq<Event>): (r: Option<(NodeTree, seq<Event>)>)
    ensures r.Some? ==> |r.value.1| < |es|
    decreases |es|, 0
  {
    if !StartsElement(es, "NODE") || HeadOf(lex, es[0].attributes) == None then None
    else if es[0].isEmpty then Some((EmptyNode(es[0].attributes), es[1..]))
    else
      var inner := ParseNodes(lex, es[1..]);
      if inner.None? || !StartsEnd(inner.value.1, "NODE") then None
      else Some((InnerNode(es[0].attributes, inner.value.0), inner.value.1[1..]))
  }

  function ParseNodes(lex: Lexicon, es: seq<Event>): (r: Option<(seq<NodeTree>, seq<Event>)>)
    ensures r.Some? ==> |r.value.1| <= |es|
    decreases |es|, 1
  {
    if !StartsElement(es, "NODE") then Some(([], es))
    else
      var first := ParseNode(lex, es);
      if first.None? then None
      else
        var more := ParseNodes(lex, first.value.1);
        if more.None? then None
        else Some(([first.value.0] + more.value.0, more.value.1))
  }

  function ParseChunk(lex: Lexicon, es: seq<Event>): (r: Option<(ChunkTree, seq<Event>)>)
    ensures r.Some? ==> |r.value.1| < |es|
    decreases |es|, 0
  {
    if !StartsElement(es, "CHUNK") then None
    else
      var node := ParseNode(lex, es[1..]);
      if node.None? then None
      else
        var inner := ParseChunks(lex, node.value.1);
        if inner.None? || !StartsEnd(inner.value.1, "CHUNK") then None
        else Some((ChunkTree(es[0].attributes, es[0].isEmpty, node.value.0, inner.value.0), inner.value.1[1..]))
  }

  function ParseChunks(lex: Lexicon, es: seq<Event>): (r: Option<(seq<ChunkTree>, seq<Event>)>)
    ensures r.Some? ==> |r.value.1| <= |es|
    decreases |es|, 1
  {
    if !StartsElement(es, "CHUNK") then Some(([], es))
    else
      var first := ParseChunk(lex, es);
      if first.None? then None
      else
        var more := ParseChunks(lex, first.value.1);
        if more.None? then None
        else Some(([first.value.0] + more.value.0, more.value.1))
  }

  function ParseSentence(lex: Lexicon, es: seq<Event>): Option<(SentenceTree, seq<Event>)>
  {
    if !StartsElement(es, "SENTENCE") then None
    else
      var inner := ParseChunks(lex, es[1..]);
      if inner.None? || !StartsEnd(inner.value.1, "SENTENCE") then None
      else Some((SentenceTree(es[0].attributes, es[0].isEmpty, inner.value.0), inner.value.1[1..]))
  }

  // ---- Soundness: what is accepted is the spelling of the returned tree. ----

  lemma {:induction false} NodeSound(lex: Lexicon, es: seq<Event>)
    ensures var r := ParseNode(lex, es);
      r.Some? ==> es == NodeEvents(r.value.0) + r.value.1 && NodeOk(lex, r.value.0)
    decreases |es|, 0
  {
    hide HeadOf, ParseNodes, NodesEvents;
    if ParseNode(lex, es).Some? {
      assert es == [es[0]] + es[1..];
      if !es[0].isEmpty {
        NodesSound(lex, es[1..]);
        var (nodes, rest) := ParseNodes(lex, es[1..]).value;
        assert rest == [rest[0]] + rest[1..];
        InnerNodeEvents(es[0].attributes, nodes, es, rest);
      }
    }
  }

  lemma InnerNodeEvents(attributes: Attributes, nodes: seq<NodeTree>, es: seq<Event>, rest: seq<Event>)
    requires rest != [] && rest[0] == EndElement("NODE")
    requires es != [] && es[0] == Element("NODE", attributes, false) && es[1..] == NodesEvents(nodes) + rest
    ensures es == NodeEvents(InnerNode(attributes, nodes)) + rest[1..]
  {
    hide NodesEvents;
    assert es == [es[0]] + es[1..] && rest == [rest[0]] + rest[1..];
  }

  lemma {:induction false} NodesSound(lex: Lexicon, es: seq<Event>)
    ensures var r := ParseNodes(lex, es);
      r.Some? ==>
        && es == NodesEvents(r.value.0) + r.value.1
        && (forall i :: 0 <= i < |r.value.0| ==> NodeOk(lex, r.value.0[i]))
        && !StartsElement(r.value.1, "NODE")
    decreases |es|, 1
  {
    hide HeadOf, ParseNode, NodeEvents, NodeOk;
    if StartsElement(es, "NODE") && ParseNode(lex, es).Some? {
      NodeSound(lex, es);
      var (first, rest) := ParseNode(lex, es).value;
      NodesSound(lex, rest);
      var more := ParseNodes(lex, rest);
      if more.Some? {
        assert ([first] + more.value.0)[1..] == more.value.0;
      }
    }
  }

  lemma {:induction false} ChunkSound(lex: Lexicon, es: seq<Event>)
    ensures var r := ParseChunk(lex, es);
      r.Some? ==> es == ChunkEvents(r.value.0) + r.value.1 && ChunkOk(lex, r.value.0)
    decreases |es|, 0
  {
    hide HeadOf, ParseNode, ParseChunks, NodeEvents, ChunksEvents, ChunkEvents, NodeOk;
    if ParseChunk(lex, es).Some? {
      NodeSound(lex, es[1..]);
      var (node, afterNode) := ParseNode(lex, es[1..]).value;
      ChunksSound(lex, afterNode);
      var (chunks, rest) := ParseChunks(lex, afterNode).value;
      WholeChunkEvents(ChunkTree(es[0].attributes, es[0].isEmpty, node, chunks), es, rest);
    }
  }

  lemma WholeChunkEvents(t: ChunkTree, es: seq<Event>, rest: seq<Event>)
    requires rest != [] && rest[0] == EndElement("CHUNK")
    requires es != [] && es[0] == Element("CHUNK", t.attributes, t.isEmpty)
    requires es[1..] == NodeEvents(t.node) + (ChunksEvents(t.chunks) + rest)
    ensures es == ChunkEvents(t) + rest[1..]
  {
    hide NodeEvents, ChunksEvents;
    assert es == [es[0]] + es[1..] && rest == [rest[0]] + rest[1..];
  }

  lemma {:induction false} ChunksSound(lex: Lexicon, es: seq<Event>)
    ensures var r := ParseChunks(lex, es);
      r.Some? ==>
        && es == ChunksEvents(r.value.0) + r.value.1
        && (forall i :: 0 <= i < |r.value.0| ==> ChunkOk(lex, r.value.0[i]))
        && !StartsElement(r.value.1, "CHUNK")
    decreases |es|, 1
  {
    hide HeadOf, ParseChunk, ChunkEvents, ChunkOk;
    if StartsElement(es, "CHUNK") && ParseChunk(lex, es).Some? {
      ChunkSound(lex, es);
      var (first, rest) := ParseChunk(lex, es).value;
      ChunksSound(lex, rest);
      var more := ParseChunks(lex, rest);
      if more.Some? {
        assert ([first] + more.value.0)[1..] == more.value.0;
      }
    }
  }

  // ---- Completeness: every spelling is accepted, whatever follows it. ----

  lemma {:induction false} NodeComplete(lex: Lexicon, t: NodeTree, rest: seq<Event>)
    requires NodeOk(lex, t)
    ensures ParseNode(lex, NodeEvents(t) + rest) == Some((t, rest))
    decreases t, 0
  {
    hide HeadOf;
    var es := NodeEvents(t) + rest;
    if t.InnerNode? {
      var tail := [EndElement("NODE")] + rest;
      assert es[1..] == NodesEvents(t.nodes) + tail;
      NodesComplete(lex, t.nodes, tail);
      assert tail[1..] == rest;
    } else {
      assert es[1..] == rest;
    }
  }

  lemma NoNodes(lex: Lexicon, rest: seq<Event>)
    requires !StartsElement(rest, "NODE")
    ensures ParseNodes(lex, rest) == Some(([], rest))
  {
  }

  lemma OneNode(lex: Lexicon, es: seq<Event>, t: NodeTree, more: seq<Event>, ts: seq<NodeTree>, rest: seq<Event>)
    requires StartsElement(es, "NODE") && ParseNode(lex, es) == Some((t, more))
    requires ParseNodes(lex, more) == Some((ts, rest))
    ensures ParseNodes(lex, es) == Some(([t] + ts, rest))
  {
    hide ParseNode;
  }

  lemma {:induction false} NodesComplete(lex: Lexicon, ts: seq<NodeTree>, rest: seq<Event>)
    requires forall i :: 0 <= i < |ts| ==> NodeOk(lex, ts[i])
    requires !StartsElement(rest, "NODE")
    ensures ParseNodes(lex, NodesEvents(ts) + rest) == Some((ts, rest))
    decreases ts, 1
  {
    hide HeadOf, ParseNode, ParseNodes, NodeEvents, NodeOk;
    if ts == [] {
      assert NodesEvents(ts) + rest == rest;
      NoNodes(lex, rest);
    } else {
      var more := NodesEvents(ts[1..]) + rest;
      assert NodesEvents(ts) + rest == NodeEvents(ts[0]) + more;
      NodeStarts(ts[0], more);
      NodeComplete(lex, ts[0], more);
      NodesComplete(lex, ts[1..], rest);
      OneNode(lex, NodeEvents(ts[0]) + more, ts[0], more, ts[1..], rest);
      assert ts == [ts[0]] + ts[1..];
    }
  }

  lemma {:induction false} ChunkComplete(lex: Lexicon, t: ChunkTree, rest: seq<Event>)
    requires ChunkOk(lex, t)
    ensures ParseChunk(lex, ChunkEvents(t) + rest) == Some((t, rest))
    decreases t, 0
  {
    hide HeadOf, ParseNode, NodeEvents, NodeOk;
    var es := ChunkEvents(t) + rest;
    var tail := [EndElement("CHUNK")] + rest;
    var afterNode := ChunksEvents(t.chunks) + tail;
    assert es[1..] == NodeEvents(t.node) + afterNode;
    NodeComplete(lex, t.node, afterNode);
    ChunksComplete(lex, t.chunks, tail);
    assert tail[1..] == rest;
  }

  lemma NoChunks(lex: Lexicon, rest: seq<Event>)
    requires !StartsElement(rest, "CHUNK")
    ensures ParseChunks(lex, rest) == Some(([], rest))
  {
  }

  lemma OneChunk(lex: Lexicon, es: seq<Event>, t: ChunkTree, more: seq<Event>, ts: seq<ChunkTree>, rest: seq<Event>)
    requires StartsElement(es, "CHUNK") && ParseChunk(lex, es) == Some((t, more))
    requires ParseChunks(lex, more) == Some((ts, rest))
    ensures ParseChunks(lex, es) == Some(([t] + ts, rest))
  {
    hide ParseChunk;
  }

  lemma {:induction false} ChunksComplete(lex: Lexicon, ts: seq<ChunkTree>, rest: seq<Event>)
    requires forall i :: 0 <= i < |ts| ==> ChunkOk(lex, ts[i])
    requires !StartsElement(rest, "CHUNK")
    ensures ParseChunks(lex, ChunksEvents(ts) + rest) == Some((ts, rest))
    decreases ts, 1
  {
    hide HeadOf, ParseChunk, ParseChunks, ChunkEvents, ChunkOk;
    if ts == [] {
      assert ChunksEvents(ts) + rest == rest;
      NoChunks(lex, rest);
    } else {
      var more := ChunksEvents(ts[1..]) + rest;
      assert ChunksEvents(ts) + rest == ChunkEvents(ts[0]) + more;
      ChunkStarts(ts[0], more);
      ChunkComplete(lex, ts[0], more);
      ChunksComplete(lex, ts[1..], rest);
      OneChunk(lex, ChunkEvents(ts[0]) + more, ts[0], more, ts[1..], rest);
      assert ts == [ts[0]] + ts[1..];
    }
  }

  // The transfer accepts a stream exactly when it starts with the spelling of a tree of the grammar
  // SENTENCE(CHUNK*), CHUNK(NODE CHUNK*), NODE(NODE*), and then it has read just that spelling.
  lemma SentenceAcceptance(lex: Lexicon, es: seq<Event>, t: SentenceTree, rest: seq<Event>)
    ensures ParseSentence(lex, es) == Some((t, rest)) <==> es == SentenceEvents(t) + rest && SentenceOk(lex, t)
  {
    hide ParseSentence, SentenceEvents, SentenceOk;
    if ParseSentence(lex, es) == Some((t, rest)) {
      SentenceSound(lex, es, t, rest);
    }
    if es == SentenceEvents(t) + rest && SentenceOk(lex, t) {
      SentenceComplete(lex, t, rest);
    }
  }

  lemma NodeStarts(t: NodeTree, rest: seq<Event>)
    ensures StartsElement(NodeEvents(t) + rest, "NODE")
  {
    hide NodesEvents;
  }

  lemma ChunkStarts(t: ChunkTree, rest: seq<Event>)
    ensures StartsElement(ChunkEvents(t) + rest, "CHUNK")
  {
    hide NodeEvents, ChunksEvents;
  }

  lemma SentenceSound(lex: Lexicon, es: seq<Event>, t: SentenceTree, rest: seq<Event>)
    requires ParseSentence(lex, es) == Some((t, rest))
    ensures es == SentenceEvents(t) + rest && SentenceOk(lex, t)
  {
    hide HeadOf, ParseChunks, ChunksEvents, ChunkOk;
    ChunksSound(lex, es[1..]);
    var after := ParseChunks(lex, es[1..]).value.1;
    assert after == [after[0]] + after[1..];
    assert es == [es[0]] + es[1..];
  }

  lemma SentenceComplete(lex: Lexicon, t: SentenceTree, rest: seq<Event>)
    requires SentenceOk(lex, t)
    ensures ParseSentence(lex, SentenceEvents(t) + rest) == Some((t, rest))
  {
    hide HeadOf, ParseChunks, ChunksEvents, ChunkOk;
    var es, tail := SentenceEvents(t) + rest, [EndElement("SENTENCE")] + rest;
    assert es[1..] == ChunksEvents(t.chunks) + tail;
    ChunksComplete(lex, t.chunks, tail);
    assert tail[1..] == rest;
  }

  // ---- The printed tags keep the skeleton and are well nested. ----

  lemma {:induction false} EventBracketsAppend(us: seq<Event>, vs: seq<Event>)
    ensures EventBrackets(us + vs) == EventBrackets(us) + EventBrackets(vs)
  {
    if us == [] {
      assert us + vs == vs;
    } else {
      assert (us + vs)[1..] == us[1..] + vs;
      EventBracketsAppend(us[1..], vs);
    }
  }

  lemma {:induction false} TagBracketsAppend(us: seq<Tag>, vs: seq<Tag>, keep: bool)
    ensures TagBrackets(us + vs, keep) == TagBrackets(us, keep) + TagBrackets(vs, keep)
  {
    if us == [] {
      assert us + vs == vs;
    } else {
      assert (us + vs)[1..] == us[1..] + vs;
      TagBracketsAppend(us[1..], vs, keep);
    }
  }

  ghost predicate AllInserted(tags: seq<Tag>)
  {
    forall i :: 0 <= i < |tags| ==> tags[i].EmptyTag? && tags[i].inserted
  }

  lemma {:induction false} InsertedVanish(tags: seq<Tag>)
    requires AllInserted(tags)
    ensures TagBrackets(tags, false) == []
  {
    if tags == [] {
    } else {
      InsertedVanish(tags[1..]);
    }
  }

  lemma HeadInsertsEmptyTags(lex: Lexicon, attributes: Attributes)
    ensures AllInserted(HeadOr(lex, attributes).inserted)
  {
    hide BaseText, Field, Marked, Selected, LookUpNode;
  }

  lemma OneTag(tag: Tag, keep: bool)
    ensures tag.OpenTag? ==> TagBrackets([tag], keep) == [Left(tag.name)]
    ensures tag.CloseTag? ==> TagBrackets([tag], keep) == [Right(tag.name)]
    ensures tag.EmptyTag? && (keep || !tag.inserted) ==> TagBrackets([tag], keep) == [Left(tag.name), Right(tag.name)]
  {
    assert [tag][1..] == [];
    assert TagBrackets([tag][1..], keep) == [];
  }

  lemma OneEvent(e: Event)
    ensures e.EndElement? ==> EventBrackets([e]) == [Right(e.name)]
    ensures e.Element? ==>
      EventBrackets([e]) == if e.isEmpty && e.name == "NODE" then [Left(e.name), Right(e.name)] else [Left(e.name)]
  {
    assert [e][1..] == [];
    assert EventBrackets([e][1..]) == [];
  }

  lemma {:induction false} NodeSkeleton(lex: Lexicon, t: NodeTree)
    ensures TagBrackets(NodeTags(lex, t), false) == EventBrackets(NodeEvents(t))
    decreases t, 0
  {
    hide HeadOf;
    var head := HeadOr(lex, t.attributes);
    HeadInsertsEmptyTags(lex, t.attributes);
    InsertedVanish(head.inserted);
    var open, close := OpenTag("NODE", head.text), CloseTag("NODE");
    OneTag(open, false);
    OneTag(close, false);
    match t {
      case EmptyNode(attributes) =>
        OneEvent(Element("NODE", attributes, true));
        OneTag(EmptyTag("NODE", head.text, false), false);
        TagBracketsAppend([open] + head.inserted, [close], false);
        TagBracketsAppend([open], head.inserted, false);
      case InnerNode(attributes, nodes) =>
        NodesSkeleton(lex, nodes);
        var start, end := Element("NODE", attributes, false), EndElement("NODE");
        OneEvent(start);
        OneEvent(end);
        TagBracketsAppend([open] + head.inserted + NodesTags(lex, nodes), [close], false);
        TagBracketsAppend([open] + head.inserted, NodesTags(lex, nodes), false);
        TagBracketsAppend([open], head.inserted, false);
        EventBracketsAppend([start] + NodesEvents(nodes), [end]);
        EventBracketsAppend([start], NodesEvents(nodes));
    }
  }

  lemma {:induction false} NodesSkeleton(lex: Lexicon, ts: seq<NodeTree>)
    ensures TagBrackets(NodesTags(lex, ts), false) == EventBrackets(NodesEvents(ts))
    decreases ts, 1
  {
    hide HeadOf;
    if ts == [] {
    } else {
      NodeSkeleton(lex, ts[0]);
      NodesSkeleton(lex, ts[1..]);
      TagBracketsAppend(NodeTags(lex, ts[0]), NodesTags(lex, ts[1..]), false);
      EventBracketsAppend(NodeEvents(ts[0]), NodesEvents(ts[1..]));
    }
  }

  lemma {:induction false} ChunkSkeleton(lex: Lexicon, t: ChunkTree)
    ensures TagBrackets(ChunkTags(lex, t), false) == EventBrackets(ChunkEvents(t))
    decreases t, 0
  {
    hide HeadOf;
    NodeSkeleton(lex, t.node);
    ChunksSkeleton(lex, t.chunks);
    var open, close := OpenTag("CHUNK", ChunkText(lex, t.attributes)), CloseTag("CHUNK");
    var start, end := Element("CHUNK", t.attributes, t.isEmpty), EndElement("CHUNK");
    OneTag(open, false);
    OneTag(close, false);
    OneEvent(start);
    OneEvent(end);
    var tags, events := NodeTags(lex, t.node), NodeEvents(t.node);
    TagBracketsAppend([open] + tags + ChunksTags(lex, t.chunks), [close], false);
    TagBracketsAppend([open] + tags, ChunksTags(lex, t.chunks), false);
    TagBracketsAppend([open], tags, false);
    EventBracketsAppend([start] + events + ChunksEvents(t.chunks), [end]);
    EventBracketsAppend([start] + events, ChunksEvents(t.chunks));
    EventBracketsAppend([start], events);
  }

  lemma {:induction false} ChunksSkeleton(lex: Lexicon, ts: seq<ChunkTree>)
    ensures TagBrackets(ChunksTags(lex, ts), false) == EventBrackets(ChunksEvents(ts))
    decreases ts, 1
  {
    hide HeadOf;
    if ts == [] {
    } else {
      ChunkSkeleton(lex, ts[0]);
      ChunksSkeleton(lex, ts[1..]);
      TagBracketsAppend(ChunkTags(lex, ts[0]), ChunksTags(lex, ts[1..]), false);
      EventBracketsAppend(ChunkEvents(ts[0]), ChunksEvents(ts[1..]));
    }
  }

  // The output of a sentence has the brackets of its input once the inserted tags are erased.
  lemma SentenceSkeleton(lex: Lexicon, t: SentenceTree)
    ensures TagBrackets(SentenceTags(lex, t), false) == EventBrackets(SentenceEvents(t))
  {
    hide HeadOf;
    ChunksSkeleton(lex, t.chunks);
    var open, close := OpenTag("SENTENCE", SentenceText(lex, t.attributes)), CloseTag("SENTENCE");
    var start, end := Element("SENTENCE", t.attributes, t.isEmpty), EndElement("SENTENCE");
    OneTag(open, false);
    OneTag(close, false);
    OneEvent(start);
    OneEvent(end);
    TagBracketsAppend([open] + ChunksTags(lex, t.chunks), [close], false);
    TagBracketsAppend([open], ChunksTags(lex, t.chunks), false);
    EventBracketsAppend([start] + ChunksEvents(t.chunks), [end]);
    EventBracketsAppend([start], ChunksEvents(t.chunks));
  }

  // A stretch of brackets is balanced when it can be dropped in front of any continuation.
  lemma {:induction false} InsertedBalanced(tags: seq<Tag>, rest: seq<Bracket>, stack: seq<string>)
    requires AllInserted(tags)
    ensures Nested(TagBrackets(tags, true) + rest, stack) <==> Nested(rest, stack)
  {
    if tags == [] {
      assert TagBrackets(tags, true) + rest == rest;
    } else {
      var more := TagBrackets(tags[1..], true) + rest;
      PairBalanced(tags[0].name, more, stack);
      assert TagBrackets(tags, true) + rest == [Left(tags[0].name), Right(tags[0].name)] + more;
      InsertedBalanced(tags[1..], rest, stack);
    }
  }

  lemma PairBalanced(name: string, rest: seq<Bracket>, stack: seq<string>)
    ensures Nested([Left(name), Right(name)] + rest, stack) <==> Nested(rest, stack)
  {
    var all := [Left(name), Right(name)] + rest;
    assert all[1..] == [Right(name)] + rest && all[1..][1..] == rest;
    assert ([name] + stack)[1..] == stack;
  }

  lemma OpenStep(name: string, rest: seq<Bracket>, stack: seq<string>)
    ensures Nested([Left(name)] + rest, stack) <==> Nested(rest, [name] + stack)
    ensures Nested([Right(name)] + rest, [name] + stack) <==> Nested(rest, stack)
  {
    assert ([Left(name)] + rest)[1..] == rest && ([Right(name)] + rest)[1..] == rest;
    assert ([name] + stack)[1..] == stack;
  }

  lemma {:induction false} NodeBalanced(lex: Lexicon, t: NodeTree, rest: seq<Bracket>, stack: seq<string>)
    ensures Nested(TagBrackets(NodeTags(lex, t), true) + rest, stack) <==> Nested(rest, stack)
    decreases t, 0
  {
    hide HeadOr, Nested, TagBrackets, AllInserted;
    var head := HeadOr(lex, t.attributes);
    HeadInsertsEmptyTags(lex, t.attributes);
    var open, close := OpenTag("NODE", head.text), CloseTag("NODE");
    NoTags();
    if t.EmptyNode? && head.inserted == [] {
      OneTag(EmptyTag("NODE", head.text, false), true);
      PairBalanced("NODE", rest, stack);
    } else {
      var body := if t.EmptyNode? then [] else NodesTags(lex, t.nodes);
      var brackets := TagBrackets(body, true);
      var tail := [Right("NODE")] + rest;
      assert NodeTags(lex, t) == [open] + head.inserted + body + [close];
      ElementBrackets(open, head.inserted, body, close);
      assert TagBrackets(NodeTags(lex, t), true) + rest
        == [Left("NODE")] + (TagBrackets(head.inserted, true) + (brackets + tail));
      OpenStep("NODE", TagBrackets(head.inserted, true) + (brackets + tail), stack);
      InsertedBalanced(head.inserted, brackets + tail, ["NODE"] + stack);
      if t.InnerNode? {
        NodesBalanced(lex, t.nodes, tail, ["NODE"] + stack);
      } else {
        assert brackets + tail == tail;
      }
      OpenStep("NODE", rest, stack);
    }
  }

  lemma ElementBrackets(open: Tag, first: seq<Tag>, second: seq<Tag>, close: Tag)
    requires open.OpenTag? && close.CloseTag?
    ensures TagBrackets([open] + first + second + [close], true)
      == [Left(open.name)] + TagBrackets(first, true) + TagBrackets(second, true) + [Right(close.name)]
  {
    OneTag(open, true);
    OneTag(close, true);
    TagBracketsAppend([open] + first + second, [close], true);
    TagBracketsAppend([open] + first, second, true);
    TagBracketsAppend([open], first, true);
  }

  lemma {:induction false} NodesBalanced(lex: Lexicon, ts: seq<NodeTree>, rest: seq<Bracket>, stack: seq<string>)
    ensures Nested(TagBrackets(NodesTags(lex, ts), true) + rest, stack) <==> Nested(rest, stack)
    decreases ts, 1
  {
    hide HeadOf, Nested, NodeTags;
    if ts == [] {
      assert TagBrackets(NodesTags(lex, ts), true) + rest == rest;
    } else {
      var more := TagBrackets(NodesTags(lex, ts[1..]), true) + rest;
      TagBracketsAppend(NodeTags(lex, ts[0]), NodesTags(lex, ts[1..]), true);
      assert TagBrackets(NodesTags(lex, ts), true) + rest == TagBrackets(NodeTags(lex, ts[0]), true) + more;
      NodeBalanced(lex, ts[0], more, stack);
      NodesBalanced(lex, ts[1..], rest, stack);
    }
  }

  lemma {:induction false} ChunkBalanced(lex: Lexicon, t: ChunkTree, rest: seq<Bracket>, stack: seq<string>)
    ensures Nested(TagBrackets(ChunkTags(lex, t), true) + rest, stack) <==> Nested(rest, stack)
    decreases t, 0
  {
    hide HeadOf, Nested, NodeTags, TagBrackets;
    var open, close := OpenTag("CHUNK", ChunkText(lex, t.attributes)), CloseTag("CHUNK");
    var node, chunks := NodeTags(lex, t.node), ChunksTags(lex, t.chunks);
    var tail := [Right("CHUNK")] + rest;
    ElementBrackets(open, node, chunks, close);
    assert TagBrackets(ChunkTags(lex, t), true) + rest
      == [Left("CHUNK")] + (TagBrackets(node, true) + (TagBrackets(chunks, true) + tail));
    OpenStep("CHUNK", TagBrackets(node, true) + (TagBrackets(chunks, true) + tail), stack);
    NodeBalanced(lex, t.node, TagBrackets(chunks, true) + tail, ["CHUNK"] + stack);
    ChunksBalanced(lex, t.chunks, tail, ["CHUNK"] + stack);
    OpenStep("CHUNK", rest, stack);
  }

  lemma {:induction false} ChunksBalanced(lex: Lexicon, ts: seq<ChunkTree>, rest: seq<Bracket>, stack: seq<string>)
    ensures Nested(TagBrackets(ChunksTags(lex, ts), true) + rest, stack) <==> Nested(rest, stack)
    decreases ts, 1
  {
    hide HeadOf, Nested, ChunkTags;
    if ts == [] {
      assert TagBrackets(ChunksTags(lex, ts), true) + rest == rest;
    } else {
      var more := TagBrackets(ChunksTags(lex, ts[1..]), true) + rest;
      TagBracketsAppend(ChunkTags(lex, ts[0]), ChunksTags(lex, ts[1..]), true);
      assert TagBrackets(ChunksTags(lex, ts), true) + rest == TagBrackets(ChunkTags(lex, ts[0]), true) + more;
      ChunkBalanced(lex, ts[0], more, stack);
      ChunksBalanced(lex, ts[1..], rest, stack);
    }
  }

  // The output of a sentence, inserted tags included, is well nested.
  lemma SentenceNested(lex: Lexicon, t: SentenceTree)
    ensures Nested(TagBrackets(SentenceTags(lex, t), true), [])
  {
    hide HeadOf, TagBrackets;
    var open, close := OpenTag("SENTENCE", SentenceText(lex, t.attributes)), CloseTag("SENTENCE");
    var chunks := ChunksTags(lex, t.chunks);
    assert SentenceTags(lex, t) == [open] + [] + chunks + [close];
    ElementBrackets(open, [], chunks, close);
    NoTags();
    var tail := [Right("SENTENCE")] + [];
    assert TagBrackets(SentenceTags(lex, t), true) == [Left("SENTENCE")] + (TagBrackets(chunks, true) + tail);
    OpenStep("SENTENCE", TagBrackets(chunks, true) + tail, []);
    ChunksBalanced(lex, t.chunks, tail, ["SENTENCE"]);
    OpenStep("SENTENCE", [], []);
    assert ["SENTENCE"] + [] == ["SENTENCE"];
  }

  lemma NoTags()
    ensures TagBrackets([], true) == []
  {
  }
}
