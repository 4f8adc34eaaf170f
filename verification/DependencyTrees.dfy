// Turning CoNLL rows into a dependency tree (quzconll2pml.pl): all words start as children of VROOT
// and are moved, one at a time and in input order, under the word their head number names.
module DependencyTrees {
  import opened Options
  import opened HeadForests
  import opened Numerals

  // ---- Input. ----

  // A line of the CoNLL file, reduced to what decides the tree.
  datatype Line = Blank | VRoot(order: nat) | Word(order: nat, head: nat)

  datatype Row = Row(order: nat, head: nat)

  // One <s> element: its number and its words in order.
  datatype Sentence = Sentence(number: nat, rows: seq<Row>)

  // Blank lines separate blocks; a block is numbered by the blank lines before it, plus one.
  function BlocksOf(lines: seq<Line>): (blocks: seq<seq<Line>>)
    ensures blocks != []
  {
    if lines == [] then [[]]
    else
      var line := lines[|lines| - 1];
      var before := BlocksOf(lines[..|lines| - 1]);
      if line == Blank then before + [[]]
      else before[|before| - 1 := before[|before| - 1] + [line]]
  }

  function WordsOf(block: seq<Line>): seq<Row>
  {
    if block == [] then []
    else
      var line := block[|block| - 1];
      WordsOf(block[..|block| - 1]) + (if line.Word? then [Row(line.order, line.head)] else [])
  }

  // The number on the last VROOT line of the block.
  function HeadnodeOf(block: seq<Line>): Option<nat>
  {
    if block == [] then None
    else
      var line := block[|block| - 1];
      if line.VRoot? then Some(line.order) else HeadnodeOf(block[..|block| - 1])
  }

  // Blocks without a word do not become sentences.
  function SentencesOf(blocks: seq<seq<Line>>): seq<Sentence>
  {
    if blocks == [] then []
    else
      var k := |blocks| - 1;
      SentencesOf(blocks[..k]) + (if WordsOf(blocks[k]) == [] then [] else [Sentence(|blocks|, WordsOf(blocks[k]))])
  }

  // $docHash of a word number: the last row that carries it.
  function LastIndex(rows: seq<Row>, order: nat): (r: Option<nat>)
    ensures r.Some? ==> r.value < |rows| && rows[r.value].order == order
    ensures r.None? ==> forall i :: 0 <= i < |rows| ==> rows[i].order != order
  {
    if rows == [] then None
    else if rows[|rows| - 1].order == order then Some(|rows| - 1)
    else LastIndex(rows[..|rows| - 1], order)
  }

  // The test $id =~ /_$headnodenumber/: unanchored at the end, so it holds for every word number that
  // starts with the digits of the VROOT number, and for every word when there is no VROOT line.
  predicate IdMatches(order: nat, headnode: Option<nat>)
  {
    headnode.Some? ==> Decimal(headnode.value) <= Decimal(order)
  }

  datatype Target = Missing | Under(parent: Option<nat>)

  // Where the loop body wants row i: a head of 0 becomes the VROOT number unless the id test holds,
  // a head equal to the VROOT number stays under VROOT, any other is looked up.
  function TargetOf(rows: seq<Row>, headnode: Option<nat>, i: nat): (t: Target)
    requires i < |rows|
    ensures t.Under? && t.parent.Some? ==> t.parent.value < |rows|
  {
    var row := rows[i];
    var headnumber := if headnode.Some? then headnode.value else 0;
    var head := if row.head == 0 && !IdMatches(row.order, headnode) then headnumber else row.head;
    if head == headnumber then Under(None)
    else
      var parent := LastIndex(rows, head);
      if parent.None? then Missing else Under(parent)
  }

  ghost predicate HeadsExist(rows: seq<Row>, headnode: Option<nat>)
  {
    forall i: nat :: i < |rows| ==> TargetOf(rows, headnode, i).Under?
  }

  ghost function Heads(rows: seq<Row>, headnode: Option<nat>): (heads: Parents)
    requires HeadsExist(rows, headnode)
    ensures |heads| == |rows| && InRange(heads)
  {
    seq(|rows|, i requires 0 <= i < |rows| => TargetOf(rows, headnode, i).parent)
  }

  // The head relation is acyclic up to VROOT.
  ghost predicate IsTree(rows: seq<Row>, headnode: Option<nat>)
  {
    HeadsExist(rows, headnode) && Forest(Heads(rows, headnode))
  }

  // Every word's parent is its head, and the heads form a tree.
  ghost predicate IsTreeOf(parents: Parents, rows: seq<Row>, headnode: Option<nat>)
  {
    IsTree(rows, headnode) && parents == Heads(rows, headnode)
  }

  ghost predicate AllTrees(blocks: seq<seq<Line>>)
  {
    forall k :: 0 <= k < |blocks| ==> IsTree(WordsOf(blocks[k]), HeadnodeOf(blocks[k]))
  }

  // ---- The same in the numbers of the rows. ----

  function VRootNumber(headnode: Option<nat>): nat
  {
    if headnode.Some? then headnode.value else 0
  }

  // The head number of the word is looked for among the words: it is not that of VROOT, and if it is 0 the
  // digits of the word's number start with those of VROOT's.
  ghost predicate IsLookedUp(row: Row, headnode: Option<nat>)
  {
    && row.head != VRootNumber(headnode)
    && (row.head == 0 ==> Decimal(VRootNumber(headnode)) <= Decimal(row.order))
  }

  // Word j is the last one with the number.
  ghost predicate IsLastWith(rows: seq<Row>, number: nat, j: nat)
  {
    j < |rows| && rows[j].order == number && forall k :: j < k < |rows| ==> rows[k].order != number
  }

  ghost predicate HeadsAreCarried(rows: seq<Row>, headnode: Option<nat>)
  {
    forall i :: 0 <= i < |rows| && IsLookedUp(rows[i], headnode) ==>
      exists j :: 0 <= j < |rows| && rows[j].order == rows[i].head
  }

  // Each word is headed by the next one of the list.
  ghost predicate IsChain(rows: seq<Row>, headnode: Option<nat>, path: seq<nat>)
  {
    && (forall k :: 0 <= k < |path| ==> path[k] < |rows|)
    && forall k :: 0 <= k < |path| - 1 ==>
      IsLookedUp(rows[path[k]], headnode) && IsLastWith(rows, rows[path[k]].head, path[k + 1])
  }

  ghost predicate HaveCycle(rows: seq<Row>, headnode: Option<nat>)
  {
    exists path :: IsChain(rows, headnode, path) && IsCycle(path)
  }

  // Every word stands under the last one that carries its head number, or under VROOT.
  ghost predicate AreParents(parents: Parents, rows: seq<Row>, headnode: Option<nat>)
  {
    && |parents| == |rows|
    && forall i :: 0 <= i < |rows| ==>
      if IsLookedUp(rows[i], headnode) then parents[i].Some? && IsLastWith(rows, rows[i].head, parents[i].value)
      else parents[i] == None
  }

  lemma {:induction false} LastIndexIs(rows: seq<Row>, number: nat)
    ensures var j := LastIndex(rows, number);
      if j.Some? then IsLastWith(rows, number, j.value) else forall k :: 0 <= k < |rows| ==> rows[k].order != number
    ensures forall j, k :: IsLastWith(rows, number, j) && IsLastWith(rows, number, k) ==> j == k
  {
    if rows == [] {
    } else {
      LastIndexIs(rows[..|rows| - 1], number);
    }
  }

  lemma TargetIs(rows: seq<Row>, headnode: Option<nat>, i: nat)
    requires i < |rows|
    ensures var t := TargetOf(rows, headnode, i);
      if !IsLookedUp(rows[i], headnode) then t == Under(None)
      else if t == Missing then forall k :: 0 <= k < |rows| ==> rows[k].order != rows[i].head
      else t.parent.Some? && IsLastWith(rows, rows[i].head, t.parent.value)
  {
    hide LastIndex, Decimal;
    LastIndexIs(rows, rows[i].head);
  }

  lemma HeadsAreParents(rows: seq<Row>, headnode: Option<nat>)
    ensures HeadsExist(rows, headnode) <==> HeadsAreCarried(rows, headnode)
    ensures HeadsExist(rows, headnode) ==> AreParents(Heads(rows, headnode), rows, headnode)
  {
    hide TargetOf, IsLookedUp;
    forall i: nat | i < |rows|
      ensures TargetOf(rows, headnode, i).Under? <==>
        (IsLookedUp(rows[i], headnode) ==> exists j :: 0 <= j < |rows| && rows[j].order == rows[i].head)
      ensures var t := TargetOf(rows, headnode, i);
        t.Under? ==> if IsLookedUp(rows[i], headnode)
          then t.parent.Some? && IsLastWith(rows, rows[i].head, t.parent.value) else t.parent == None
    {
      TargetIs(rows, headnode, i);
    }
  }

  lemma ParentsAreUnique(parents: Parents, heads: Parents, rows: seq<Row>, headnode: Option<nat>)
    requires AreParents(parents, rows, headnode) && AreParents(heads, rows, headnode)
    ensures parents == heads && InRange(parents)
  {
    hide IsLookedUp;
    forall i | 0 <= i < |rows|
      ensures parents[i] == heads[i]
    {
      LastIndexIs(rows, rows[i].head);
    }
  }

  // The parents form a forest exactly when the head numbers close no cycle.
  lemma ForestIffNumbers(parents: Parents, rows: seq<Row>, headnode: Option<nat>)
    requires AreParents(parents, rows, headnode)
    ensures InRange(parents) && (Forest(parents) <==> !HaveCycle(rows, headnode))
  {
    hide IsLookedUp, Forest;
    ParentsAreUnique(parents, parents, rows, headnode);
    ForestIffNoCycle(parents);
    forall path
      ensures Climbs(parents, path) <==> IsChain(rows, headnode, path)
    {
      ClimbIsChain(parents, rows, headnode, path);
    }
  }

  lemma ClimbIsChain(parents: Parents, rows: seq<Row>, headnode: Option<nat>, path: seq<nat>)
    requires AreParents(parents, rows, headnode)
    ensures Climbs(parents, path) <==> IsChain(rows, headnode, path)
  {
    hide IsLookedUp, IsLastWith;
    if Climbs(parents, path) {
      forall k | 0 <= k < |path| - 1
        ensures IsLookedUp(rows[path[k]], headnode) && IsLastWith(rows, rows[path[k]].head, path[k + 1])
      {
        StepIsHead(parents, rows, headnode, path[k], path[k + 1]);
      }
    }
    if IsChain(rows, headnode, path) {
      forall k | 0 <= k < |path| - 1
        ensures parents[path[k]] == Some(path[k + 1])
      {
        StepIsHead(parents, rows, headnode, path[k], path[k + 1]);
      }
    }
  }

  lemma StepIsHead(parents: Parents, rows: seq<Row>, headnode: Option<nat>, i: nat, j: nat)
    requires AreParents(parents, rows, headnode) && i < |rows|
    ensures parents[i] == Some(j) <==> IsLookedUp(rows[i], headnode) && IsLastWith(rows, rows[i].head, j)
  {
    hide IsLookedUp, IsLastWith;
    LastIndexIs(rows, rows[i].head);
  }

  // The heads form a tree exactly when each number that is looked for is carried by a word and they close no
  // cycle; and then the parents are the words that carry them.
  lemma TreeIffNumbers(rows: seq<Row>, headnode: Option<nat>)
    ensures IsTree(rows, headnode) <==> HeadsAreCarried(rows, headnode) && !HaveCycle(rows, headnode)
    ensures forall parents :: IsTreeOf(parents, rows, headnode) <==>
      IsTree(rows, headnode) && AreParents(parents, rows, headnode)
  {
    hide HeadsAreCarried, HaveCycle, AreParents, Forest, HeadsExist, Heads;
    HeadsAreParents(rows, headnode);
    if HeadsExist(rows, headnode) {
      var heads := Heads(rows, headnode);
      ForestIffNumbers(heads, rows, headnode);
      forall parents | AreParents(parents, rows, headnode)
        ensures parents == heads
      {
        ParentsAreUnique(parents, heads, rows, headnode);
      }
    }
  }

  ghost predicate AllSound(blocks: seq<seq<Line>>)
  {
    forall k :: 0 <= k < |blocks| ==>
      && HeadsAreCarried(WordsOf(blocks[k]), HeadnodeOf(blocks[k]))
      && !HaveCycle(WordsOf(blocks[k]), HeadnodeOf(blocks[k]))
  }

  lemma AllSoundIsAllTrees(blocks: seq<seq<Line>>)
    ensures AllSound(blocks) <==> AllTrees(blocks)
  {
    hide HeadsAreCarried, HaveCycle, IsTree, WordsOf, HeadnodeOf;
    forall k | 0 <= k < |blocks|
      ensures var rows, headnode := WordsOf(blocks[k]), HeadnodeOf(blocks[k]);
        IsTree(rows, headnode) <==> HeadsAreCarried(rows, headnode) && !HaveCycle(rows, headnode)
    {
      TreeIffNumbers(WordsOf(blocks[k]), HeadnodeOf(blocks[k]));
    }
  }

  // A word whose head is 0 stays under VROOT unless the id test fires for it while VROOT has another
  // number than 0.
  lemma RootWords(rows: seq<Row>, headnode: Option<nat>, i: nat)
    requires i < |rows| && rows[i].head == 0
    ensures headnode.None? || headnode.value == 0 || !IdMatches(rows[i].order, headnode) <==>
      TargetOf(rows, headnode, i) == Under(None)
    ensures headnode.Some? && rows[i].order < headnode.value ==> TargetOf(rows, headnode, i) == Under(None)
  {
    if headnode.Some? && IdMatches(rows[i].order, headnode) {
      DecimalPrefix(headnode.value, rows[i].order);
    }
  }

  // Word 12 of a sentence whose VROOT is number 1 is mistaken for VROOT, and its head 0 is looked up.
  lemma RootWordMistaken()
    ensures TargetOf([Row(12, 0)], Some(1), 0) == Missing
  {
    assert Decimal(12) == Decimal(1) + [Digit(2)];
    assert LastIndex([Row(12, 0)], 0).None?;
  }

  // ---- The tree being built. ----

  // The <children> lists of one sentence. VROOT's list is rootChildren.
  class SentenceTree {
    var parents: Parents
    var rootChildren: seq<nat>
    var children: seq<seq<nat>>

    ghost predicate Valid()
      reads this
    {
      && |children| == |parents| && InRange(parents)
      && Forest(parents)
      && rootChildren == ChildrenOf(parents, None, |parents|)
      && forall p: nat :: p < |parents| ==> children[p] == ChildrenOf(parents, Some(p), |parents|)
    }

    // A flat sentence of n words.
    constructor (n: nat)
      ensures Valid() && parents == seq(n, i => None)
    {
      parents := seq(n, i => None);
      rootChildren := seq(n, i => i);
      children := seq(n, i => []);
      new;
      FlatChildren(parents, n);
      forall x: nat | x < n
        ensures ReachesRoot(parents, x)
      {
        assert RootWithin(parents, None, 0);
        assert RootWithin(parents, Some(x), 1);
      }
    }

    // libxml2's appendChild: refuses to put a node under itself or a descendant, and otherwise takes
    // it out of its parent's list and appends it to the new one.
    method AppendChild(x: nat, p: nat) returns (ok: bool)
      requires |children| == |parents| && InRange(parents) && Forest(parents)
      requires x < |parents| && p < |parents|
      modifies this
      ensures |parents| == |old(parents)| && |children| == |parents|
      ensures !ok ==> (exists n: nat :: OnPath(old(parents), Some(p), x, n))
      ensures ok ==> (exists n: nat :: RootWithin(old(parents), Some(p), n) && !OnPath(old(parents), Some(p), x, n))
      ensures !ok ==> unchanged(this)
      ensures ok ==> parents == old(parents)[x := Some(p)]
      ensures ok && old(parents)[x] == None ==>
        && rootChildren == Without(old(rootChildren), x)
        && children == old(children)[p := old(children)[p] + [x]]
      ensures ok && old(parents)[x].Some? ==>
        var q := old(parents)[x].value;
        var without := old(children)[q := Without(old(children)[q], x)];
        rootChildren == old(rootChildren) && children == without[p := without[p] + [x]]
    {
      ok := Attachable(x, p);
      if ok {
        match parents[x] {
          case None => rootChildren := Without(rootChildren, x);
          case Some(q) => children := children[q := Without(children[q], x)];
        }
        children := children[p := children[p] + [x]];
        parents := parents[x := Some(p)];
      }
    }

    // Climbs from p and reports whether x is not met.
    method Attachable(x: nat, p: nat) returns (ok: bool)
      requires InRange(parents) && Forest(parents) && x < |parents| && p < |parents|
      ensures !ok ==> (exists n: nat :: OnPath(parents, Some(p), x, n))
      ensures ok ==> (exists n: nat :: RootWithin(parents, Some(p), n) && !OnPath(parents, Some(p), x, n))
    {
      assert ReachesRoot(parents, p);
      ghost var n: nat :| RootWithin(parents, Some(p), n);
      var at: Option<nat> := Some(p);
      ghost var left := n;
      while at.Some? && at.value != x
        invariant at.Some? ==> at.value < |parents|
        invariant RootWithin(parents, at, left)
        invariant OnPath(parents, Some(p), x, n) <==> OnPath(parents, at, x, left)
        decreases left
      {
        at := parents[at.value];
        left := left - 1;
      }
      ok := at.None?;
    }
  }

  class Converter {
    var docHash: map<(nat, nat), nat>     // (sentence, word number) to the word's place in the sentence
    var headnodes: map<nat, nat>          // sentence to the number on its VROOT line
    var sentences: seq<Sentence>

    constructor ()
      ensures docHash == map[] && headnodes == map[] && sentences == []
    {
      docHash, headnodes, sentences := map[], map[], [];
    }

    // The hash entries of one sentence.
    ghost predicate HashOf(s: nat, words: seq<Row>)
      reads this`docHash
    {
      && (forall o: nat :: (s, o) in docHash <==> LastIndex(words, o).Some?)
      && (forall o: nat :: (s, o) in docHash ==> LastIndex(words, o) == Some(docHash[(s, o)]))
    }

    ghost predicate Indexes(blocks: seq<seq<Line>>)
      reads this
    {
      && sentences == SentencesOf(blocks)
      && (forall k :: 0 <= k < |blocks| ==> HashOf(k + 1, WordsOf(blocks[k])))
      && (forall k :: 0 <= k < |blocks| ==> Headnode(k + 1) == HeadnodeOf(blocks[k]))
      && (forall s: nat, o: nat :: (s, o) in docHash ==> s <= |blocks|)
      && (forall s: nat :: s in headnodes ==> s <= |blocks|)
    }

    function Headnode(s: nat): Option<nat>
      reads this`headnodes
    {
      if s in headnodes then Some(headnodes[s]) else None
    }

    // The reading loop.
    method Read(lines: seq<Line>)
      requires docHash == map[] && headnodes == map[] && sentences == []
      modifies this
      ensures Indexes(BlocksOf(lines))
    {
      var scount := 1;
      var inSentence := false;
      assert SentencesOf([[]]) == SentencesOf([[]][..0]) == [];
      assert Indexes([[]]);
      hide Indexes, WordsOf, BlocksOf;
      NoLines(lines);
      for n := 0 to |lines|
        invariant scount == |BlocksOf(lines[..n])|
        invariant inSentence <==> WordsOf(BlocksOf(lines[..n])[scount - 1]) != []
        invariant Indexes(BlocksOf(lines[..n]))
      {
        ghost var blocks := BlocksOf(lines[..n]);
        NextLine(lines, n);
        match lines[n] {
          case Blank =>
            BlankLine(blocks);
            scount := scount + 1;
            inSentence := false;
          case VRoot(order) =>
            ReadVRoot(blocks, scount, order);
          case Word(order, head) =>
            ReadWord(blocks, scount, inSentence, order, head);
            inSentence := true;
        }
      }
      assert lines[..|lines|] == lines;
    }

    // A blank line opens a block that has no entries yet.
    lemma BlankLine(blocks: seq<seq<Line>>)
      requires Indexes(blocks)
      ensures Indexes(blocks + [[]]) && WordsOf([]) == []
    {
      assert (blocks + [[]])[..|blocks|] == blocks;
    }

    method ReadVRoot(ghost blocks: seq<seq<Line>>, scount: nat, order: nat)
      requires Indexes(blocks) && blocks != [] && scount == |blocks|
      modifies this
      ensures Indexes(blocks[scount - 1 := blocks[scount - 1] + [VRoot(order)]])
      ensures WordsOf(blocks[scount - 1] + [VRoot(order)]) == WordsOf(blocks[scount - 1])
    {
      hide WordsOf, HeadnodeOf, LastIndex, SentencesOf, HashOf;
      VRootGrows(blocks, order);
      headnodes := headnodes[scount := order];
    }

    method ReadWord(ghost blocks: seq<seq<Line>>, scount: nat, inSentence: bool, order: nat, head: nat)
      requires Indexes(blocks) && blocks != [] && scount == |blocks|
      requires inSentence <==> WordsOf(blocks[scount - 1]) != []
      modifies this
      ensures Indexes(blocks[scount - 1 := blocks[scount - 1] + [Word(order, head)]])
      ensures WordsOf(blocks[scount - 1] + [Word(order, head)]) != []
    {
      hide WordsOf, HeadnodeOf, LastIndex, SentencesOf, HashOf;
      var n := scount - 1;
      BlockGrows(blocks, Word(order, head));
      ghost var after := blocks[n := blocks[n] + [Word(order, head)]];
      ghost var before := seq(scount, k requires 0 <= k < scount => WordsOf(blocks[k]));
      var place := AppendTerminal(SentencesOf(blocks[..n]), before[n], scount, inSentence, Row(order, head));
      RecordNode(before, WordsOf(after[n]), scount, order, place);
      assert forall k :: 0 <= k < n ==> after[k] == blocks[k] && before[k] == WordsOf(after[k]);
    }

    // $docHash{$id} = $terminal
    method RecordNode(ghost before: seq<seq<Row>>, ghost words: seq<Row>, s: nat, order: nat, place: nat)
      requires s == |before| > 0 && forall k :: 0 <= k < s ==> HashOf(k + 1, before[k])
      requires forall s': nat, o: nat :: (s', o) in docHash ==> s' <= s
      requires forall o: nat ::
        LastIndex(words, o) == (if o == order then Some(place) else LastIndex(before[s - 1], o))
      modifies this`docHash
      ensures forall k :: 0 <= k < s - 1 ==> HashOf(k + 1, before[k])
      ensures HashOf(s, words)
      ensures forall s': nat, o: nat :: (s', o) in docHash ==> s' <= s
    {
      hide LastIndex;
      docHash := docHash[(s, order) := place];
    }

    // The <terminal> element of a word, in a new <s> element when the word is the first of its block.
    method AppendTerminal(ghost earlier: seq<Sentence>, ghost words: seq<Row>, scount: nat, inSentence: bool, row: Row)
      returns (place: nat)
      requires sentences == earlier + (if words == [] then [] else [Sentence(scount, words)])
      requires inSentence <==> words != []
      modifies this`sentences
      ensures sentences == earlier + [Sentence(scount, words + [row])] && place == |words|
    {
      if !inSentence {
        sentences := sentences + [Sentence(scount, [])];
      }
      var k := |sentences| - 1;
      place := |sentences[k].rows|;
      sentences := sentences[k := Sentence(scount, sentences[k].rows + [row])];
    }

    // Processes the words of one sentence in order; false stands for the exits of the source.
    method BuildDependencies(sentence: Sentence, headnode: Option<nat>) returns (ok: bool, tree: SentenceTree)
      requires HashOf(sentence.number, sentence.rows)
      ensures fresh(tree)
      ensures ok <==> IsTree(sentence.rows, headnode)
      ensures ok <==> HeadsAreCarried(sentence.rows, headnode) && !HaveCycle(sentence.rows, headnode)
      ensures ok ==> tree.Valid() && IsTreeOf(tree.parents, sentence.rows, headnode)
      ensures ok ==> AreParents(tree.parents, sentence.rows, headnode)
    {
      hide LastIndex, Forest, ChildrenOf, Without, IsTree, Decimal, IsTreeOf, HeadsAreCarried, HaveCycle, AreParents;
      TreeIffNumbers(sentence.rows, headnode);
      var terminals := sentence.rows;
      var headnodenumber := if headnode.Some? then headnode.value else 0;
      tree := new SentenceTree(|terminals|);
      ok := true;
      for i := 0 to |terminals|
        invariant fresh(tree) && ok && tree.Valid() && |tree.parents| == |terminals|
        invariant forall j: nat :: j < i ==> TargetOf(terminals, headnode, j) == Under(tree.parents[j])
        invariant forall j: nat :: i <= j < |terminals| ==> tree.parents[j] == None
      {
        var head := terminals[i].head;
        if head == 0 && !IdMatches(terminals[i].order, headnode) {
          head := headnodenumber;
        }
        if head != headnodenumber {
          if (sentence.number, head) !in docHash {
            MissingIsNoTree(terminals, headnode, i);
            return false, tree;
          }
          var p := docHash[(sentence.number, head)];
          ghost var before := tree.parents;
          ok := tree.AppendChild(i, p);
          if !ok {
            RejectedMeansCycle(terminals, headnode, before, i, p);
            return;
          }
          AppendKeepsValid(before, i, p);
        }
      }
      ParentsAreHeads(terminals, headnode, tree.parents);
    }

    lemma AtSentence(blocks: seq<seq<Line>>, k: nat)
      requires Indexes(blocks) && k < |sentences|
      ensures var s := sentences[k];
        && 1 <= s.number <= |blocks| && s.rows == WordsOf(blocks[s.number - 1])
        && HashOf(s.number, s.rows) && Headnode(s.number) == HeadnodeOf(blocks[s.number - 1])
    {
      hide HashOf, HeadnodeOf, WordsOf, SentencesOf;
      SentencesAreBlocks(blocks);
    }

    lemma AtSentences(blocks: seq<seq<Line>>)
      requires Indexes(blocks)
      ensures sentences == SentencesOf(blocks)
      ensures forall k :: 0 <= k < |sentences| ==> 1 <= sentences[k].number <= |blocks|
    {
      SentencesAreBlocks(blocks);
    }

    // The whole program: it prints a document exactly when in every block each head number that is looked for
    // is carried by a word and the numbers close no cycle.
    method Convert(lines: seq<Line>) returns (ok: bool, trees: seq<SentenceTree>)
      requires docHash == map[] && headnodes == map[] && sentences == []
      modifies this
      ensures ok <==> AllSound(BlocksOf(lines))
      ensures ok ==> sentences == SentencesOf(BlocksOf(lines)) && |trees| == |sentences|
      ensures ok ==> forall k :: 0 <= k < |trees| ==>
        && trees[k].Valid()
        && 1 <= sentences[k].number <= |BlocksOf(lines)|
        && AreParents(trees[k].parents, sentences[k].rows, HeadnodeOf(BlocksOf(lines)[sentences[k].number - 1]))
    {
      hide IsTree, IsTreeOf, HashOf, HeadnodeOf, WordsOf, SentencesOf, SentenceTree.Valid, BlocksOf, AllTrees, Indexes;
      hide AllSound, AreParents;
      Read(lines);
      ghost var blocks := BlocksOf(lines);
      AllSoundIsAllTrees(blocks);
      AtSentences(blocks);
      ok, trees := true, [];
      ghost var parents: seq<Parents> := [];
      label Ready:
      for k := 0 to |sentences|
        invariant unchanged@Ready(this) && Indexes(blocks) && ok && |trees| == k
        invariant |parents| == k && forall j :: 0 <= j < k ==> trees[j].Valid() && trees[j].parents == parents[j]
        invariant forall j :: 0 <= j < k ==>
          && IsTreeOf(parents[j], sentences[j].rows, HeadnodeOf(blocks[sentences[j].number - 1]))
          && AreParents(parents[j], sentences[j].rows, HeadnodeOf(blocks[sentences[j].number - 1]))
      {
        AtSentence(blocks, k);
        var tree;
        ok, tree := BuildDependencies(sentences[k], Headnode(sentences[k].number));
        if !ok {
          OneIsNoTree(blocks, sentences[k].number - 1);
          return;
        }
        trees := trees + [tree];
        parents := parents + [tree.parents];
      }
      EverySentenceIsTree(blocks, parents);
    }
  }

  lemma EverySentenceIsTree(blocks: seq<seq<Line>>, parents: seq<Parents>)
    requires |parents| == |SentencesOf(blocks)|
    requires forall k :: 0 <= k < |parents| ==>
      var s := SentencesOf(blocks)[k];
      1 <= s.number <= |blocks| && IsTreeOf(parents[k], s.rows, HeadnodeOf(blocks[s.number - 1]))
    ensures AllTrees(blocks)
  {
    hide IsTree, IsTreeOf, HeadnodeOf, WordsOf, SentencesOf;
    SentencesAreBlocks(blocks);
    var sentences := SentencesOf(blocks);
    forall b | 0 <= b < |blocks|
      ensures IsTree(WordsOf(blocks[b]), HeadnodeOf(blocks[b]))
    {
      if WordsOf(blocks[b]) == [] {
        NoWordsIsTree(HeadnodeOf(blocks[b]));
      } else {
        var k :| 0 <= k < |sentences| && sentences[k] == Sentence(b + 1, WordsOf(blocks[b]));
        TreeOfIsTree(parents[k], sentences[k].rows, HeadnodeOf(blocks[b]));
      }
    }
  }

  lemma OneIsNoTree(blocks: seq<seq<Line>>, b: nat)
    requires b < |blocks| && !IsTree(WordsOf(blocks[b]), HeadnodeOf(blocks[b]))
    ensures !AllTrees(blocks)
  {
  }

  lemma NoWordsIsTree(headnode: Option<nat>)
    ensures IsTree([], headnode)
  {
  }

  lemma TreeOfIsTree(parents: Parents, rows: seq<Row>, headnode: Option<nat>)
    requires IsTreeOf(parents, rows, headnode)
    ensures IsTree(rows, headnode)
  {
  }

  // Adding a line that is not blank only changes the last block.
  lemma BlockGrows(blocks: seq<seq<Line>>, line: Line)
    requires blocks != [] && line != Blank
    ensures var k := |blocks| - 1;
      var block := blocks[k] + [line];
      var after := blocks[k := block];
      && after[..k] == blocks[..k]
      && HeadnodeOf(block) == (if line.VRoot? then Some(line.order) else HeadnodeOf(blocks[k]))
      && WordsOf(block)
         == (if line.Word? then WordsOf(blocks[k]) + [Row(line.order, line.head)] else WordsOf(blocks[k]))
      && (line.Word? ==> forall o: nat ::
            LastIndex(WordsOf(block), o)
              == (if o == line.order then Some(|WordsOf(blocks[k])|) else LastIndex(WordsOf(blocks[k]), o)))
      && SentencesOf(after) == SentencesOf(blocks[..k])
           + (if WordsOf(block) == [] then [] else [Sentence(k + 1, WordsOf(block))])
      && SentencesOf(blocks) == SentencesOf(blocks[..k])
           + (if WordsOf(blocks[k]) == [] then [] else [Sentence(k + 1, WordsOf(blocks[k]))])
  {
    var k := |blocks| - 1;
    assert (blocks[k] + [line])[..|blocks[k]|] == blocks[k];
    if line.VRoot? {
      assert WordsOf(blocks[k]) + [] == WordsOf(blocks[k]);
    }
    if line.Word? {
      var words := WordsOf(blocks[k]) + [Row(line.order, line.head)];
      assert words[..|words| - 1] == WordsOf(blocks[k]);
    }
  }

  // A VROOT line changes the VROOT number and nothing else.
  lemma VRootGrows(blocks: seq<seq<Line>>, order: nat)
    requires blocks != []
    ensures var k := |blocks| - 1;
      var after := blocks[k := blocks[k] + [VRoot(order)]];
      && SentencesOf(after) == SentencesOf(blocks)
      && forall j :: 0 <= j < |blocks| ==>
        && WordsOf(after[j]) == WordsOf(blocks[j])
        && HeadnodeOf(after[j]) == (if j == k then Some(order) else HeadnodeOf(blocks[j]))
  {
    BlockGrows(blocks, VRoot(order));
    hide WordsOf, HeadnodeOf, LastIndex, SentencesOf;
  }

  lemma NoLines(lines: seq<Line>)
    ensures BlocksOf(lines[..0]) == [[]] && WordsOf([[]][0]) == []
  {
  }

  lemma NextLine(lines: seq<Line>, n: nat)
    requires n < |lines|
    ensures var blocks := BlocksOf(lines[..n]);
      var k := |blocks| - 1;
      BlocksOf(lines[..n + 1]) == if lines[n] == Blank then blocks + [[]] else blocks[k := blocks[k] + [lines[n]]]
  {
    assert lines[..n + 1][..n] == lines[..n];
  }

  // Every sentence is the block of its number, and every block with a word is a sentence.
  lemma {:induction false} SentencesAreBlocks(blocks: seq<seq<Line>>)
    ensures forall k :: 0 <= k < |SentencesOf(blocks)| ==>
      var s := SentencesOf(blocks)[k];
      1 <= s.number <= |blocks| && s.rows == WordsOf(blocks[s.number - 1]) != []
    ensures forall b :: 0 <= b < |blocks| && WordsOf(blocks[b]) != [] ==>
      Sentence(b + 1, WordsOf(blocks[b])) in SentencesOf(blocks)
  {
    hide WordsOf;
    if blocks == [] {
    } else {
      var k := |blocks| - 1;
      var before, words := SentencesOf(blocks[..k]), WordsOf(blocks[k]);
      SentencesAreBlocks(blocks[..k]);
      assert SentencesOf(blocks) == before + (if words == [] then [] else [Sentence(k + 1, words)]);
      forall b | 0 <= b < |blocks| && WordsOf(blocks[b]) != []
        ensures Sentence(b + 1, WordsOf(blocks[b])) in SentencesOf(blocks)
      {
        assert b < k ==> Sentence(b + 1, WordsOf(blocks[..k][b])) in before;
      }
    }
  }

  // ---- What the blocks are. ----

  function Separated(blocks: seq<seq<Line>>): seq<Line>
    requires blocks != []
  {
    var k := |blocks| - 1;
    if k == 0 then blocks[0] else Separated(blocks[..k]) + [Blank] + blocks[k]
  }

  lemma {:induction false} BlockAppended(lines: seq<Line>, block: seq<Line>)
    requires Blank !in block
    ensures var before := BlocksOf(lines);
      BlocksOf(lines + block) == before[|before| - 1 := before[|before| - 1] + block]
  {
    var before := BlocksOf(lines);
    var last := |before| - 1;
    if block == [] {
      assert lines + block == lines && before[last] + [] == before[last];
    } else {
      var all, k := lines + block, |block| - 1;
      BlockAppended(lines, block[..k]);
      assert all[..|all| - 1] == lines + block[..k] && all[|all| - 1] == block[k] && block[k] != Blank;
      assert before[last] + block[..k] + [block[k]] == before[last] + block;
    }
  }

  lemma BlankAppended(lines: seq<Line>)
    ensures BlocksOf(lines + [Blank]) == BlocksOf(lines) + [[]]
  {
    assert (lines + [Blank])[..|lines|] == lines;
  }

  // Blocks without blank lines, with one blank line between them, are read as those blocks.
  lemma {:induction false} BlocksOfSeparated(blocks: seq<seq<Line>>)
    requires blocks != [] && forall k :: 0 <= k < |blocks| ==> Blank !in blocks[k]
    ensures BlocksOf(Separated(blocks)) == blocks
  {
    hide BlocksOf;
    var k := |blocks| - 1;
    NothingRead();
    LastBlock(blocks);
    if k == 0 {
      BlockAppended([], blocks[0]);
      assert [] + blocks[0] == blocks[0];
    } else {
      BlocksOfSeparated(blocks[..k]);
      BlankAppended(Separated(blocks[..k]));
      BlockAppended(Separated(blocks[..k]) + [Blank], blocks[k]);
    }
  }

  lemma NothingRead()
    ensures BlocksOf([]) == [[]]
  {
  }

  lemma LastBlock(blocks: seq<seq<Line>>)
    requires blocks != []
    ensures var k := |blocks| - 1;
      var before := blocks[..k] + [[]];
      before[k := before[k] + blocks[k]] == blocks
  {
    var k := |blocks| - 1;
    assert [] + blocks[k] == blocks[k];
  }

  // The words of a block in order, and the number on its last VROOT line.
  lemma {:induction false} BlockParts(us: seq<Line>, vs: seq<Line>)
    ensures WordsOf(us + vs) == WordsOf(us) + WordsOf(vs)
    ensures HeadnodeOf(us + vs) == if HeadnodeOf(vs).Some? then HeadnodeOf(vs) else HeadnodeOf(us)
  {
    if vs == [] {
      assert us + vs == us;
    } else {
      var k := |vs| - 1;
      BlockParts(us, vs[..k]);
      assert (us + vs)[..|us + vs| - 1] == us + vs[..k] && (us + vs)[|us + vs| - 1] == vs[k];
      assert WordsOf(us) + WordsOf(vs[..k]) + [] == WordsOf(us) + WordsOf(vs[..k]);
    }
  }

  lemma OneLine(order: nat, head: nat)
    ensures WordsOf([Word(order, head)]) == [Row(order, head)] && WordsOf([VRoot(order)]) == []
    ensures HeadnodeOf([VRoot(order)]) == Some(order) && HeadnodeOf([Word(order, head)]) == None
  {
    assert [Word(order, head)][..0] == [] && [VRoot(order)][..0] == [];
  }

  lemma {:induction false} SentencesAreInOrder(blocks: seq<seq<Line>>)
    ensures forall j, k :: 0 <= j < k < |SentencesOf(blocks)| ==>
      SentencesOf(blocks)[j].number < SentencesOf(blocks)[k].number
  {
    hide WordsOf;
    if blocks == [] {
    } else {
      var n := |blocks| - 1;
      SentencesAreInOrder(blocks[..n]);
      SentencesAreBlocks(blocks[..n]);
    }
  }

  lemma MissingIsNoTree(rows: seq<Row>, headnode: Option<nat>, i: nat)
    requires i < |rows| && TargetOf(rows, headnode, i) == Missing
    ensures !IsTree(rows, headnode)
  {
  }

  // When every word has been processed the parents are the heads.
  lemma ParentsAreHeads(rows: seq<Row>, headnode: Option<nat>, parents: Parents)
    requires |parents| == |rows| && Forest(parents)
    requires forall j: nat :: j < |rows| ==> TargetOf(rows, headnode, j) == Under(parents[j])
    ensures IsTreeOf(parents, rows, headnode) && IsTree(rows, headnode)
  {
    assert HeadsExist(rows, headnode);
    assert parents == Heads(rows, headnode);
  }

  // appendChild refuses word i only when the head relation has a cycle through it.
  lemma RejectedMeansCycle(rows: seq<Row>, headnode: Option<nat>, parents: Parents, i: nat, p: nat)
    requires |parents| == |rows| && i < |rows| && TargetOf(rows, headnode, i) == Under(Some(p))
    requires forall j: nat :: j < i ==> TargetOf(rows, headnode, j) == Under(parents[j])
    requires forall j: nat :: i <= j < |rows| ==> parents[j] == None
    requires exists n: nat :: OnPath(parents, Some(p), i, n)
    ensures !IsTree(rows, headnode)
  {
    if IsTree(rows, headnode) {
      var heads := Heads(rows, headnode);
      var n: nat :| OnPath(parents, Some(p), i, n);
      PathTransfers(parents, heads, Some(p), i, n);
      assert ReachesRoot(heads, i);
      var m: nat :| RootWithin(heads, Some(i), m);
      CyclesNeverRoot(heads, i, n, m);
    }
  }

  // Moving word i from VROOT to the end of p's children keeps every list in input order.
  lemma AppendKeepsValid(parents: Parents, i: nat, p: nat)
    requires InRange(parents) && Forest(parents) && i < |parents| && p < |parents|
    requires parents[i] == None && forall j :: i <= j < |parents| ==> parents[j] == None
    requires exists n: nat :: RootWithin(parents, Some(p), n) && !OnPath(parents, Some(p), i, n)
    ensures var after := parents[i := Some(p)];
      var n := |parents|;
      && InRange(after) && Forest(after)
      && ChildrenOf(after, None, n) == Without(ChildrenOf(parents, None, n), i)
      && ChildrenOf(after, Some(p), n) == ChildrenOf(parents, Some(p), n) + [i]
      && forall q: nat :: q != p ==> ChildrenOf(after, Some(q), n) == ChildrenOf(parents, Some(q), n)
  {
    var n: nat :| RootWithin(parents, Some(p), n) && !OnPath(parents, Some(p), i, n);
    MoveKeepsForest(parents, i, p, n);
    WithoutChild(parents, None, i, Some(p), |parents|);
    AppendedChild(parents, i, Some(p), |parents|);
    forall q: nat | q != p
      ensures ChildrenOf(parents[i := Some(p)], Some(q), |parents|) == ChildrenOf(parents, Some(q), |parents|)
    {
      OtherChildren(parents, Some(q), i, Some(p), |parents|);
    }
  }
}
