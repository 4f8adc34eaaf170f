// The lexical transfer as it runs: procedures sharing one XML reader, each leaving the cursor on the
// last event of the element it has read (squoia_xfer_lex.cc).
module LexicalTransfer {
  import opened Options
  import opened TransferGrammar
  import opened TransferParsing

  // The reader: a cursor on an event, or behind the last one.
  class Reader {
    const events: seq<Event>
    var pos: nat

    ghost predicate Valid()
      reads this`pos
    {
      pos <= |events| && (pos < |events| ==> !Skipped(events[pos]))
    }

    // The significant events from the cursor on.
    ghost function Ahead(): seq<Event>
      requires Valid()
      reads this`pos
    {
      Significant(events[pos..])
    }

    // A reader whose cursor is on the given event.
    constructor (events: seq<Event>, pos: nat)
      requires pos <= |events| && (pos < |events| ==> !Skipped(events[pos]))
      ensures Valid() && this.events == events && this.pos == pos
    {
      this.events, this.pos := events, pos;
    }

    // nextTag: its result is whether there is another event.
    method NextTag() returns (ret: bool)
      requires Valid() && pos < |events|
      modifies this`pos
      ensures Valid() && pos > old(pos)
      ensures Ahead() == old(Ahead())[1..]
      ensures ret <==> pos < |events|
      ensures forall i :: old(pos) < i < pos ==> events[i] == Text || events[i] == DocType
      ensures pos < |events| ==> events[pos] != Text && events[pos] != DocType
    {
      SignificantStep(events, pos);
      pos := pos + 1;
      while pos < |events| && Skipped(events[pos])
        invariant pos <= |events|
        invariant forall i :: old(pos) < i < pos ==> events[i] == Text || events[i] == DocType
        invariant Significant(events[pos..]) == old(Ahead())[1..]
        invariant pos > old(pos)
      {
        SignificantStep(events, pos);
        pos := pos + 1;
      }
      ret := pos < |events|;
    }

    // getTagName and the node type tests. Behind the last event no test holds.
    method AtStart(name: string) returns (b: bool)
      requires Valid()
      ensures b <==> StartsElement(Ahead(), name)
      ensures b ==> pos < |events| && events[pos] == Ahead()[0]
    {
      HeadIsCurrent();
      b := pos < |events| && events[pos].Element? && events[pos].name == name;
    }

    method AtEnd(name: string) returns (b: bool)
      requires Valid()
      ensures b <==> StartsEnd(Ahead(), name)
      ensures b ==> pos < |events| && events[pos] == EndElement(name)
    {
      HeadIsCurrent();
      b := pos < |events| && events[pos] == EndElement(name);
    }

    lemma HeadIsCurrent()
      requires Valid()
      ensures pos < |events| ==> Ahead() != [] && Ahead()[0] == events[pos]
      ensures pos == |events| ==> Ahead() == []
    {
      if pos < |events| {
        SignificantStep(events, pos);
      }
    }
  }

  lemma SignificantStep(events: seq<Event>, pos: nat)
    requires pos < |events|
    ensures var later := Significant(events[pos + 1..]);
      Significant(events[pos..]) == if Skipped(events[pos]) then later else [events[pos]] + later
  {
    assert events[pos..][1..] == events[pos + 1..];
    assert [] + Significant(events[pos + 1..]) == Significant(events[pos + 1..]);
  }

  lemma NodesTagsAppend(lex: Lexicon, us: seq<NodeTree>, t: NodeTree)
    ensures NodesTags(lex, us + [t]) == NodesTags(lex, us) + NodeTags(lex, t)
  {
    hide HeadOf, NodeTags;
    if us == [] {
      assert [t][1..] == [];
      assert NodesTags(lex, [t]) == NodeTags(lex, t) + NodesTags(lex, [t][1..]);
    } else {
      assert (us + [t])[1..] == us[1..] + [t];
      NodesTagsAppend(lex, us[1..], t);
    }
  }

  lemma ChunksTagsAppend(lex: Lexicon, us: seq<ChunkTree>, t: ChunkTree)
    ensures ChunksTags(lex, us + [t]) == ChunksTags(lex, us) + ChunkTags(lex, t)
  {
    hide HeadOf, ChunkTags;
    if us == [] {
      assert [t][1..] == [];
      assert ChunksTags(lex, [t]) == ChunkTags(lex, t) + ChunksTags(lex, [t][1..]);
    } else {
      assert (us + [t])[1..] == us[1..] + [t];
      ChunksTagsAppend(lex, us[1..], t);
    }
  }

  // The parse of a list, given what has been parsed of it.
  ghost predicate NodesSoFar(lex: Lexicon, all: seq<Event>, done: seq<NodeTree>, left: seq<Event>)
  {
    var whole, more := ParseNodes(lex, all), ParseNodes(lex, left);
    if more.None? then whole.None? else whole == Some((done + more.value.0, more.value.1))
  }

  ghost predicate ChunksSoFar(lex: Lexicon, all: seq<Event>, done: seq<ChunkTree>, left: seq<Event>)
  {
    var whole, more := ParseChunks(lex, all), ParseChunks(lex, left);
    if more.None? then whole.None? else whole == Some((done + more.value.0, more.value.1))
  }

  lemma NoNodeYet(lex: Lexicon, all: seq<Event>)
    ensures NodesSoFar(lex, all, [], all)
    ensures ChunksSoFar(lex, all, [], all)
  {
    assert forall ts: seq<NodeTree> :: [] + ts == ts;
    assert forall ts: seq<ChunkTree> :: [] + ts == ts;
  }

  lemma OneMoreNode(lex: Lexicon, all: seq<Event>, done: seq<NodeTree>, left: seq<Event>)
    requires NodesSoFar(lex, all, done, left)
    ensures !StartsElement(left, "NODE") ==> ParseNodes(lex, all) == Some((done, left))
    ensures StartsElement(left, "NODE") && ParseNode(lex, left).None? ==> ParseNodes(lex, all).None?
    ensures StartsElement(left, "NODE") && ParseNode(lex, left).Some? ==>
      NodesSoFar(lex, all, done + [ParseNode(lex, left).value.0], ParseNode(lex, left).value.1)
  {
    hide HeadOf, ParseNode;
    if !StartsElement(left, "NODE") {
      assert done + [] == done;
    } else if ParseNode(lex, left).Some? {
      var (t, rest) := ParseNode(lex, left).value;
      var more := ParseNodes(lex, rest);
      if more.Some? {
        assert done + ([t] + more.value.0) == done + [t] + more.value.0;
      }
    }
  }

  lemma OneMoreChunk(lex: Lexicon, all: seq<Event>, done: seq<ChunkTree>, left: seq<Event>)
    requires ChunksSoFar(lex, all, done, left)
    ensures !StartsElement(left, "CHUNK") ==> ParseChunks(lex, all) == Some((done, left))
    ensures StartsElement(left, "CHUNK") && ParseChunk(lex, left).None? ==> ParseChunks(lex, all).None?
    ensures StartsElement(left, "CHUNK") && ParseChunk(lex, left).Some? ==>
      ChunksSoFar(lex, all, done + [ParseChunk(lex, left).value.0], ParseChunk(lex, left).value.1)
  {
    hide ParseChunk;
    if !StartsElement(left, "CHUNK") {
      assert done + [] == done;
    } else if ParseChunk(lex, left).Some? {
      var (t, rest) := ParseChunk(lex, left).value;
      var more := ParseChunks(lex, rest);
      if more.Some? {
        assert done + ([t] + more.value.0) == done + [t] + more.value.0;
      }
    }
  }

  // procNODE. When ok is false the source exits.
  method ProcNode(lex: Lexicon, reader: Reader) returns (ok: bool, tags: seq<Tag>)
    requires reader.Valid()
    modifies reader
    ensures reader.Valid() && reader.pos >= old(reader.pos)
    ensures ok <==> ParseNode(lex, old(reader.Ahead())).Some?
    ensures ok ==>
      && reader.pos < |reader.events| && reader.Ahead() != []
      && reader.Ahead()[1..] == ParseNode(lex, old(reader.Ahead())).value.1
      && tags == NodeTags(lex, ParseNode(lex, old(reader.Ahead())).value.0)
    decreases |reader.events| - reader.pos, 0
  {
    hide HeadOf, ParseNodes, NodesTags, Significant;
    ok, tags := false, [];
    var start := reader.AtStart("NODE");
    if !start {
      return;
    }
    var e := reader.events[reader.pos];
    var head := HeadOf(lex, e.attributes);
    if head == None {
      return;
    }
    var text, inserted := head.value.text, head.value.inserted;
    if e.isEmpty {
      ok := true;
      if inserted == [] {
        tags := [EmptyTag("NODE", text, false)];
      } else {
        tags := [OpenTag("NODE", text)] + inserted + [CloseTag("NODE")];
      }
      return;
    }
    var ret := reader.NextTag();
    var nodes;
    ok, nodes := ProcNodes(lex, reader);
    if !ok {
      return;
    }
    ok := reader.AtEnd("NODE");
    tags := [OpenTag("NODE", text)] + inserted + nodes + [CloseTag("NODE")];
  }

  // The loop of procNODE over the NODEs inside it.
  method ProcNodes(lex: Lexicon, reader: Reader) returns (ok: bool, tags: seq<Tag>)
    requires reader.Valid()
    modifies reader
    ensures reader.Valid() && reader.pos >= old(reader.pos)
    ensures ok <==> ParseNodes(lex, old(reader.Ahead())).Some?
    ensures ok ==>
      && reader.Ahead() == ParseNodes(lex, old(reader.Ahead())).value.1
      && tags == NodesTags(lex, ParseNodes(lex, old(reader.Ahead())).value.0)
    decreases |reader.events| - reader.pos, 1
  {
    hide HeadOf, ParseNode, ParseNodes, NodesSoFar, NodeTags, Significant;
    ghost var all := reader.Ahead();
    ghost var done: seq<NodeTree> := [];
    NoNodeYet(lex, all);
    tags := [];
    var more := reader.AtStart("NODE");
    while more
      invariant reader.Valid() && reader.pos >= old(reader.pos)
      invariant more <==> StartsElement(reader.Ahead(), "NODE")
      invariant NodesSoFar(lex, all, done, reader.Ahead())
      invariant tags == NodesTags(lex, done)
      decreases |reader.events| - reader.pos
    {
      ghost var left := reader.Ahead();
      OneMoreNode(lex, all, done, left);
      var node;
      ok, node := ProcNode(lex, reader);
      if !ok {
        return;
      }
      NodesTagsAppend(lex, done, ParseNode(lex, left).value.0);
      done := done + [ParseNode(lex, left).value.0];
      tags := tags + node;
      var ret := reader.NextTag();
      more := reader.AtStart("NODE");
    }
    OneMoreNode(lex, all, done, reader.Ahead());
    ok := true;
  }

  // procCHUNK.
  method ProcChunk(lex: Lexicon, reader: Reader) returns (ok: bool, tags: seq<Tag>)
    requires reader.Valid()
    modifies reader
    ensures reader.Valid() && reader.pos >= old(reader.pos)
    ensures ok <==> ParseChunk(lex, old(reader.Ahead())).Some?
    ensures ok ==>
      && reader.pos < |reader.events| && reader.Ahead() != []
      && reader.Ahead()[1..] == ParseChunk(lex, old(reader.Ahead())).value.1
      && tags == ChunkTags(lex, ParseChunk(lex, old(reader.Ahead())).value.0)
    decreases |reader.events| - reader.pos, 0
  {
    hide ParseNode, ParseChunks, NodeTags, ChunksTags, Significant, ChunkText;
    ok, tags := false, [];
    var start := reader.AtStart("CHUNK");
    if !start {
      return;
    }
    var attributes := reader.events[reader.pos].attributes;
    var ret := reader.NextTag();
    var node;
    ok, node := ProcNode(lex, reader);
    if !ok {
      return;
    }
    ret := reader.NextTag();
    var chunks;
    ok, chunks := ProcChunks(lex, reader);
    if !ok {
      return;
    }
    ok := reader.AtEnd("CHUNK");
    tags := [OpenTag("CHUNK", ChunkText(lex, attributes))] + node + chunks + [CloseTag("CHUNK")];
  }

  // The loops of procCHUNK and procSENTENCE over the CHUNKs inside them.
  method ProcChunks(lex: Lexicon, reader: Reader) returns (ok: bool, tags: seq<Tag>)
    requires reader.Valid()
    modifies reader
    ensures reader.Valid() && reader.pos >= old(reader.pos)
    ensures ok <==> ParseChunks(lex, old(reader.Ahead())).Some?
    ensures ok ==>
      && reader.Ahead() == ParseChunks(lex, old(reader.Ahead())).value.1
      && tags == ChunksTags(lex, ParseChunks(lex, old(reader.Ahead())).value.0)
    decreases |reader.events| - reader.pos, 1
  {
    hide ParseChunk, ParseChunks, ChunksSoFar, ChunkTags, Significant;
    ghost var all := reader.Ahead();
    ghost var done: seq<ChunkTree> := [];
    NoNodeYet(lex, all);
    tags := [];
    var more := reader.AtStart("CHUNK");
    while more
      invariant reader.Valid() && reader.pos >= old(reader.pos)
      invariant more <==> StartsElement(reader.Ahead(), "CHUNK")
      invariant ChunksSoFar(lex, all, done, reader.Ahead())
      invariant tags == ChunksTags(lex, done)
      decreases |reader.events| - reader.pos
    {
      ghost var left := reader.Ahead();
      OneMoreChunk(lex, all, done, left);
      var chunk;
      ok, chunk := ProcChunk(lex, reader);
      if !ok {
        return;
      }
      ChunksTagsAppend(lex, done, ParseChunk(lex, left).value.0);
      done := done + [ParseChunk(lex, left).value.0];
      tags := tags + chunk;
      var ret := reader.NextTag();
      more := reader.AtStart("CHUNK");
    }
    OneMoreChunk(lex, all, done, reader.Ahead());
    ok := true;
  }

  // procSENTENCE: succeeds exactly on a sentence of the grammar, prints its tree, and leaves the
  // cursor on the sentence's end, whatever follows.
  method ProcSentence(lex: Lexicon, reader: Reader) returns (ok: bool, tags: seq<Tag>)
    requires reader.Valid()
    modifies reader
    ensures reader.Valid() && reader.pos >= old(reader.pos)
    ensures ok <==> ParseSentence(lex, old(reader.Ahead())).Some?
    ensures ok ==>
      && reader.pos < |reader.events| && reader.events[reader.pos] == EndElement("SENTENCE")
      && reader.Ahead()[1..] == ParseSentence(lex, old(reader.Ahead())).value.1
      && tags == SentenceTags(lex, ParseSentence(lex, old(reader.Ahead())).value.0)
  {
    hide ParseChunks, ChunksTags, Significant, SentenceText;
    ok, tags := false, [];
    var start := reader.AtStart("SENTENCE");
    if !start {
      return;
    }
    var text := SentenceText(lex, reader.events[reader.pos].attributes);
    var ret := reader.NextTag();
    var chunks;
    ok, chunks := ProcChunks(lex, reader);
    if !ok {
      return;
    }
    ok := reader.AtEnd("SENTENCE");
    tags := [OpenTag("SENTENCE", text)] + chunks + [CloseTag("SENTENCE")];
  }
}
