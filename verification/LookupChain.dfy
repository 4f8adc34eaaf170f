// The spelling server's chain of normalising transducers (spellcheck.c): a doubly linked list of
// stateful apply handles, searched by a loop that backtracks along the prev pointers.
module LookupChain {
  import opened Options
  import opened Compositions

  // One foma apply handle: a word starts a new iteration, NULL asks for the next result.
  class ApplyHandle {
    const net: Net
    var pending: seq<string>

    constructor (net: Net)
      ensures this.net == net && pending == []
    {
      this.net := net;
      pending := [];
    }

    method Apply(word: Option<string>) returns (result: Option<string>)
      modifies this
      ensures var left := if word.Some? then net(word.value) else old(pending);
        if left == [] then result == None && pending == []
        else result == Some(left[0]) && pending == left[1..]
    {
      if word.Some? {
        pending := net(word.value);
      }
      if pending == [] {
        result := None;
      } else {
        result, pending := Some(pending[0]), pending[1..];
      }
    }
  }

  datatype Match = Match(result: string, instring: string, cost: int)

  // The minimum-edit-distance handle; search lists what it finds for a word.
  class MedHandle {
    const search: string -> seq<Match>
    var pending: seq<Match>

    constructor (search: string -> seq<Match>)
      ensures this.search == search
    {
      this.search := search;
      pending := [];
    }

    method Apply(word: Option<string>) returns (result: Option<Match>)
      modifies this
      ensures var left := if word.Some? then search(word.value) else old(pending);
        if left == [] then result == None && pending == []
        else result == Some(left[0]) && pending == left[1..]
    {
      if word.Some? {
        pending := search(word.value);
      }
      if pending == [] {
        result := None;
      } else {
        result, pending := Some(pending[0]), pending[1..];
      }
    }
  }

  class ChainNode {
    const ah: ApplyHandle
    var next: ChainNode?
    var prev: ChainNode?

    constructor (net: Net)
      ensures fresh(ah) && ah.net == net
      ensures next == null && prev == null
    {
      ah := new ApplyHandle(net);
      next, prev := null, null;
    }
  }

  // What the program prints, one value per printf.
  datatype Printed =
    | Recognised(word: string)
    | Suggestion(word: string, result: string)
    | MedHeader(word: string)
    | MedNothing
    | MedMatch(found: Match)

  function Suggestions(word: string, results: seq<string>): seq<Printed>
  {
    seq(|results|, i requires 0 <= i < |results| => Suggestion(word, results[i]))
  }

  lemma NothingSuggested(before: seq<Printed>, word: string)
    ensures before + Suggestions(word, []) == before
  {
  }

  // The first answer from net k on.
  lemma FirstAnswerFrom(nets: seq<Net>, k: nat, w: string)
    requires k < |nets|
    ensures FirstAnswer(nets[k..], w) == if nets[k](w) != [] then nets[k](w) else FirstAnswer(nets[k + 1..], w)
    ensures FirstAnswer([], w) == [] && (k == |nets| - 1 ==> nets[k + 1..] == [])
  {
    assert nets[k..][0] == nets[k] && nets[k..][1..] == nets[k + 1..];
  }

  lemma SuggestionsAppend(before: seq<Printed>, word: string, us: seq<string>, vs: seq<string>)
    ensures before + Suggestions(word, us) + Suggestions(word, vs) == before + Suggestions(word, us + vs)
    ensures before + Suggestions(word, []) == before
  {
  }

  function MedLines(word: string, matches: seq<Match>): seq<Printed>
  {
    [MedHeader(word)] + (if matches == [] then [MedNothing] else Matches(matches))
  }

  function Matches(matches: seq<Match>): seq<Printed>
  {
    seq(|matches|, i requires 0 <= i < |matches| => MedMatch(matches[i]))
  }

  lemma MatchesSnoc(before: seq<Printed>, matches: seq<Match>, last: Match)
    ensures before + Matches(matches) + [MedMatch(last)] == before + Matches(matches + [last])
  {
  }

  lemma MedLinesAre(before: seq<Printed>, word: string, matches: seq<Match>)
    ensures before + MedLines(word, matches)
      == before + [MedHeader(word)] + (if matches == [] then [MedNothing] else Matches(matches))
    ensures before + [MedHeader(word)] + Matches([]) == before + [MedHeader(word)]
  {
  }

  function Normalisations(alternates: bool, nets: seq<Net>, word: string): seq<string>
  {
    if alternates then FirstAnswer(nets, word) else Compose(nets, word)
  }

  // All output for one input line.
  function LineOutput(alternates: bool, analyser: Net, nets: seq<Net>, search: string -> seq<Match>, line: string)
    : seq<Printed>
  {
    if line == "" then []
    else if analyser(line) != [] then [Recognised(line)]
    else if Normalisations(alternates, nets, line) != [] then Suggestions(line, Normalisations(alternates, nets, line))
    else MedLines(line, search(line))
  }

  // ---- What the output of a line is. ----

  ghost predicate AreMedLines(printed: seq<Printed>, word: string, matches: seq<Match>)
  {
    if matches == [] then printed == [MedHeader(word), MedNothing]
    else
      && |printed| == 1 + |matches| && printed[0] == MedHeader(word)
      && forall i :: 0 <= i < |matches| ==> printed[i + 1] == MedMatch(matches[i])
  }

  ghost predicate AreSuggestions(printed: seq<Printed>, word: string, results: seq<string>)
  {
    |printed| == |results| && forall i :: 0 <= i < |results| ==> printed[i] == Suggestion(word, results[i])
  }

  // The results of the first net that answers.
  ghost predicate FromFirstNet(printed: seq<Printed>, nets: seq<Net>, matches: seq<Match>, line: string)
  {
    && (forall i: nat :: i < |nets| && nets[i](line) != [] && (forall j :: 0 <= j < i ==> nets[j](line) == []) ==>
          AreSuggestions(printed, line, nets[i](line)))
    && ((forall i :: 0 <= i < |nets| ==> nets[i](line) == []) ==> AreMedLines(printed, line, matches))
  }

  // One suggestion for each derivation, in their order.
  ghost predicate FromAllNets(printed: seq<Printed>, nets: seq<Net>, matches: seq<Match>, line: string,
                              paths: seq<seq<nat>>)
  {
    && ListsPaths(nets, line, paths)
    && if paths == [] then AreMedLines(printed, line, matches)
       else
         && |printed| == |paths|
         && forall j :: 0 <= j < |paths| ==> printed[j] == Suggestion(line, Follow(nets, line, paths[j]))
  }

  ghost predicate Answers(printed: seq<Printed>, alternates: bool, analyser: Net, nets: seq<Net>,
                          search: string -> seq<Match>, line: string)
  {
    if line == "" then printed == []
    else if analyser(line) != [] then printed == [Recognised(line)]
    else if alternates then FromFirstNet(printed, nets, search(line), line)
    else exists paths :: FromAllNets(printed, nets, search(line), line, paths)
  }

  lemma MedLinesFound(word: string, matches: seq<Match>)
    ensures AreMedLines(MedLines(word, matches), word, matches)
  {
  }

  lemma FirstNetFound(nets: seq<Net>, matches: seq<Match>, line: string)
    ensures var results := FirstAnswer(nets, line);
      FromFirstNet(if results != [] then Suggestions(line, results) else MedLines(line, matches), nets, matches, line)
  {
    hide FirstAnswer, MedLines, AreMedLines;
    MedLinesFound(line, matches);
    forall i: nat | i < |nets| && nets[i](line) != [] && forall j :: 0 <= j < i ==> nets[j](line) == []
      ensures FirstAnswer(nets, line) == nets[i](line)
    {
      FirstAnswerIsFirst(nets, line, i);
    }
    if forall i :: 0 <= i < |nets| ==> nets[i](line) == [] {
      FirstAnswerIsFirst(nets, line, |nets|);
    }
  }

  lemma LineIsAnswered(alternates: bool, analyser: Net, nets: seq<Net>, search: string -> seq<Match>, line: string)
    ensures Answers(LineOutput(alternates, analyser, nets, search, line), alternates, analyser, nets, search, line)
  {
    hide FirstAnswer, Compose, MedLines, FromFirstNet, AreMedLines, ListsPaths, Follow;
    FirstNetFound(nets, search(line), line);
    MedLinesFound(line, search(line));
    var paths := ComposeListsPaths(nets, line);
    if line != "" && analyser(line) == [] && !alternates {
      assert FromAllNets(LineOutput(alternates, analyser, nets, search, line), nets, search(line), line, paths);
    }
  }

  // The distance search is announced exactly for a line that is not empty, that the analyser does not know and
  // for which no net answers, or no derivation goes through all nets.
  lemma MedSearchIff(printed: seq<Printed>, alternates: bool, analyser: Net, nets: seq<Net>,
                     search: string -> seq<Match>, line: string)
    requires Answers(printed, alternates, analyser, nets, search, line)
    ensures MedHeader(line) in printed <==>
      && line != "" && analyser(line) == []
      && if alternates then forall i :: 0 <= i < |nets| ==> nets[i](line) == []
         else !HasPath(nets, line)
  {
    hide HasPath, Follow, FromFirstNet, FromAllNets;
    if line != "" && analyser(line) == [] {
      if alternates {
        HeaderOfFirst(printed, nets, search(line), line);
      } else {
        var paths :| FromAllNets(printed, nets, search(line), line, paths);
        HeaderOfAll(printed, nets, search(line), line, paths);
      }
    }
  }

  lemma HeaderIn(printed: seq<Printed>, word: string, matches: seq<Match>)
    requires AreMedLines(printed, word, matches)
    ensures MedHeader(word) in printed
  {
    assert printed[0] == MedHeader(word);
  }

  lemma HeaderOfFirst(printed: seq<Printed>, nets: seq<Net>, matches: seq<Match>, line: string)
    requires FromFirstNet(printed, nets, matches, line)
    ensures MedHeader(line) in printed <==> forall i :: 0 <= i < |nets| ==> nets[i](line) == []
  {
    hide AreMedLines;
    if k: nat :| k < |nets| && nets[k](line) != [] {
      var i := FirstToAnswer(nets, line, k);
      assert AreSuggestions(printed, line, nets[i](line));
    } else {
      HeaderIn(printed, line, matches);
    }
  }

  lemma NoPaths(nets: seq<Net>, line: string, paths: seq<seq<nat>>)
    requires ListsPaths(nets, line, paths) && paths == []
    ensures !HasPath(nets, line)
  {
    hide ValidPath, Before;
    forall path
      ensures !ValidPath(nets, line, path)
    {
      assert path !in paths;
    }
  }

  lemma HeaderOfAll(printed: seq<Printed>, nets: seq<Net>, matches: seq<Match>, line: string, paths: seq<seq<nat>>)
    requires FromAllNets(printed, nets, matches, line, paths)
    ensures MedHeader(line) in printed <==> !HasPath(nets, line)
  {
    hide AreMedLines, Follow, Before;
    if paths == [] {
      HeaderIn(printed, line, matches);
      NoPaths(nets, line, paths);
    } else {
      assert ValidPath(nets, line, paths[0]);
      assert forall j :: 0 <= j < |printed| ==> printed[j].Suggestion?;
    }
  }

  lemma {:induction false} FirstToAnswer(nets: seq<Net>, line: string, k: nat) returns (i: nat)
    requires k < |nets| && nets[k](line) != []
    ensures i < |nets| && nets[i](line) != [] && forall j :: 0 <= j < i ==> nets[j](line) == []
  {
    if j: nat :| j < k && nets[j](line) != [] {
      i := FirstToAnswer(nets, line, j);
    } else {
      i := k;
    }
  }

  function Reversed(nets: seq<Net>): seq<Net>
  {
    if nets == [] then [] else Reversed(nets[1..]) + [nets[0]]
  }

  class SpellChecker {
    const alternates: bool
    const analyser: ApplyHandle
    const medh: MedHandle
    var head: ChainNode?
    var tail: ChainNode?
    var output: seq<Printed>
    var results: nat
    ghost var nodes: seq<ChainNode>
    ghost var handles: set<ApplyHandle>

    // The list is well formed: nodes lists it from head to tail, next and prev are inverse, and
    // every node has a handle of its own.
    ghost predicate Valid()
      reads this`head, this`tail, this`nodes, this`handles, nodes
    {
      && (nodes == [] ==> head == null && tail == null)
      && (nodes != [] ==> head == nodes[0] && tail == nodes[|nodes| - 1] && head.prev == null && tail.next == null)
      && (forall i {:trigger nodes[i].next} :: 0 <= i < |nodes| - 1 ==> nodes[i].next == nodes[i + 1])
      && (forall i {:trigger nodes[i].prev} :: 1 <= i < |nodes| ==> nodes[i].prev == nodes[i - 1])
      && (forall i, j :: 0 <= i < j < |nodes| ==> nodes[i] != nodes[j])
      && (forall i, j :: 0 <= i < j < |nodes| ==> nodes[i].ah != nodes[j].ah)
      && (forall i :: 0 <= i < |nodes| ==> nodes[i].ah in handles)
      && analyser !in handles
    }

    ghost function Nets(): (nets: seq<Net>)
      reads this`nodes
    {
      var ns := nodes;
      seq(|ns|, i requires 0 <= i < |ns| => ns[i].ah.net)
    }

    constructor (alternates: bool, analyser: Net, search: string -> seq<Match>)
      ensures Valid() && Nets() == [] && output == [] && results == 0
      ensures this.alternates == alternates && this.analyser.net == analyser && medh.search == search
      ensures fresh(this.analyser) && fresh(medh)
    {
      this.alternates := alternates;
      this.analyser := new ApplyHandle(analyser);
      medh := new MedHandle(search);
      head, tail := null, null;
      output, results := [], 0;
      nodes, handles := [], {};
    }

    // One step of the loading loop: append when alternates are on, prepend when they are off.
    method AddNet(net: Net)
      requires Valid()
      modifies this`head, this`tail, this`nodes, this`handles, nodes
      ensures Valid()
      ensures Nets() == if alternates then old(Nets()) + [net] else [net] + old(Nets())
      ensures forall i :: 0 <= i < |nodes| ==> nodes[i] in old(nodes) || fresh(nodes[i])
    {
      var node := new ChainNode(net);
      if tail == null {
        head, tail := node, node;
        nodes, handles := [node], handles + {node.ah};
      } else if alternates {
        Append(node);
      } else {
        Prepend(node);
      }
    }

    method Append(node: ChainNode)
      requires Valid() && tail != null
      requires node.next == null && node.prev == null && node.ah !in handles && node.ah != analyser
      modifies this`tail, this`nodes, this`handles, nodes, node
      ensures Valid() && nodes == old(nodes) + [node]
    {
      ghost var was := nodes;
      tail.next := node;
      node.prev := tail;
      tail := node;
      nodes, handles := nodes + [node], handles + {node.ah};
      assert nodes[|was| - 1] == was[|was| - 1];
    }

    method Prepend(node: ChainNode)
      requires Valid() && head != null
      requires node.next == null && node.prev == null && node.ah !in handles && node.ah != analyser
      modifies this`head, this`nodes, this`handles, nodes, node
      ensures Valid() && nodes == [node] + old(nodes)
    {
      ghost var was := nodes;
      node.next := head;
      head.prev := node;
      head := node;
      nodes, handles := [node] + nodes, handles + {node.ah};
      assert forall i :: 1 <= i < |nodes| ==> nodes[i] == was[i - 1];
    }

    // Loads a whole chain file; the source refuses an empty one.
    method Load(file: seq<Net>) returns (ok: bool)
      requires Valid() && nodes == []
      modifies this`head, this`tail, this`nodes, this`handles
      ensures Valid()
      ensures ok <==> file != []
      ensures Nets() == if alternates then file else Reversed(file)
    {
      var numnets := 0;
      while numnets < |file|
        invariant Valid()
        invariant numnets <= |file| && |nodes| == numnets
        invariant forall i :: 0 <= i < |nodes| ==> fresh(nodes[i])
        invariant Nets() == if alternates then file[..numnets] else Reversed(file[..numnets])
      {
        ReversedSnoc(file[..numnets], file[numnets]);
        assert file[..numnets + 1] == file[..numnets] + [file[numnets]];
        AddNet(file[numnets]);
        numnets := numnets + 1;
      }
      assert file[..numnets] == file;
      ok := numnets >= 1;
    }

    // One input line: recognised words are reported, others are normalised by the chain, and the
    // minimum-edit-distance search runs exactly when the chain has nothing to offer.
    method HandleLine(line: string)
      requires Valid() && nodes != []
      modifies this`output, this`results, handles, analyser, medh
      ensures output == old(output) + LineOutput(alternates, analyser.net, Nets(), medh.search, line)
      ensures Answers(output[|old(output)|..], alternates, analyser.net, Nets(), medh.search, line)
    {
      hide Compose, MedLines, Answers;
      LineIsAnswered(alternates, analyser.net, Nets(), medh.search, line);
      results := 0;
      if line != "" {
        var result := analyser.Apply(Some(line));
        if result == None {
          var normalized;
          if alternates {
            normalized := SearchAlternates(line);
          } else {
            normalized := SearchComposition(line);
          }
          if !normalized {
            SearchByDistance(line);
          }
        } else {
          output := output + [Recognised(line)];
        }
      }
    }

    method SearchByDistance(line: string)
      modifies this`output, medh
      ensures output == old(output) + MedLines(line, medh.search(line))
    {
      hide Matches, MedLines;
      ghost var all := medh.search(line);
      MedLinesAre(old(output), line, all);
      output := output + [MedHeader(line)];
      ghost var header := output;
      var result := medh.Apply(Some(line));
      if result == None {
        output := output + [MedNothing];
      } else {
        ghost var done: seq<Match> := [];
        while result.Some?
          invariant all == done + (if result.Some? then [result.value] + medh.pending else [])
          invariant output == header + Matches(done)
          decreases |all| - |done|
        {
          MatchesSnoc(header, done, result.value);
          output := output + [MedMatch(result.value)];
          done := done + [result.value];
          result := medh.Apply(None);
        }
        assert all == done;
      }
    }

    // The branch taken while apply_alternates is set: the first net with an answer gives them all.
    method SearchAlternates(s: string) returns (normalized: bool)
      requires Valid() && nodes != []
      modifies this`output, this`results, handles
      ensures output == old(output) + Suggestions(s, FirstAnswer(Nets(), s))
      ensures results == old(results) + |FirstAnswer(Nets(), s)|
      ensures normalized <==> FirstAnswer(Nets(), s) != []
    {
      hide Valid, FirstAnswer, Suggestions;
      Linked(0);
      normalized := false;
      var pos := head;
      ghost var nets := Nets();
      ghost var k := 0;
      assert nets[0..] == nets;
      NothingSuggested(output, s);
      while true
        invariant Valid() && |nets| == |nodes| && 0 <= k < |nodes| && pos == nodes[k]
        invariant !normalized && output == old(output) && results == old(results)
        invariant FirstAnswer(nets, s) == FirstAnswer(nets[k..], s)
        decreases |nodes| - k
      {
        FirstAnswerFrom(nets, k, s);
        Linked(k);
        ghost var answers := nets[k](s);
        assert pos.ah.net == nets[k];
        var result := pos.ah.Apply(Some(s));
        if result.Some? {
          assert answers == [result.value] + pos.ah.pending;
          normalized := EmitAll(pos.ah, s, result);
          break;
        }
        if pos == tail {
          break;
        }
        pos := pos.next;
        k := k + 1;
      }
    }

    // Prints a first result and then every result the handle still has.
    method EmitAll(ah: ApplyHandle, s: string, first: Option<string>) returns (normalized: bool)
      requires first.Some?
      modifies this`output, this`results, ah
      ensures output == old(output) + Suggestions(s, [first.value] + old(ah.pending))
      ensures results == old(results) + 1 + |old(ah.pending)|
      ensures ah.pending == []
      ensures normalized
    {
      var result := first;
      normalized := true;
      ghost var done: seq<string> := [];
      ghost var all := [first.value] + ah.pending;
      while result.Some?
        invariant all == done + (if result.Some? then [result.value] + ah.pending else [])
        invariant result == None ==> ah.pending == []
        invariant output == old(output) + Suggestions(s, done)
        invariant results == old(results) + |done|
        decreases |all| - |done|
      {
        results := results + 1;
        output := output + [Suggestion(s, result.value)];
        done := done + [result.value];
        result := ah.Apply(None);
      }
    }

    // What the links say at one node.
    lemma Linked(k: nat)
      requires Valid() && k < |nodes|
      ensures head == nodes[0] && (nodes[k] == tail <==> k == |nodes| - 1)
      ensures k + 1 < |nodes| ==> nodes[k].next == nodes[k + 1]
      ensures nodes[k].ah in handles && forall i :: 0 <= i < |nodes| && i != k ==> nodes[i].ah != nodes[k].ah
    {
    }

    // The branch taken while apply_alternates is clear: depth-first search with backtracking.
    method SearchComposition(s: string) returns (normalized: bool)
      requires Valid() && nodes != []
      modifies this`output, this`results, handles
      ensures output == old(output) + Suggestions(s, Compose(Nets(), s))
      ensures results == old(results) + |Compose(Nets(), s)|
      ensures normalized <==> Compose(Nets(), s) != []
    {
      hide Compose, Owed, OwedVisits, Outstanding, Budget, Completes, Suggestions, Valid;
      Linked(0);
      normalized := false;
      var pos := head;
      var tempstr := s;
      ghost var nets := Nets();
      ghost var k := 0;
      ghost var pend := seq(|nets|, i => []);
      ghost var done: seq<string> := [];
      SearchStarts(nets, pend, s);
      SuggestionsAppend(output, s, [], []);
      while true
        invariant Valid() && |pend| == |nets| == |nodes| && 0 <= k < |nodes| && pos == nodes[k]
        invariant forall i :: 0 <= i < k ==> nodes[i].ah.pending == pend[i]
        invariant Completes(done, Outstanding(nets, pend, k, tempstr), Compose(nets, s))
        invariant output == old(output) + Suggestions(s, done)
        invariant results == old(results) + |done|
        invariant normalized <==> done != []
        decreases Budget(nets, pend, k, tempstr)
      {
        ghost var answers := nets[k](tempstr);
        Linked(k);
        var result := pos.ah.Apply(Some(tempstr));
        if result.Some? && pos != tail {
          SearchDescends(nets, pend, k, tempstr);
          tempstr := result.value;
          pos := pos.next;
          pend := pend[k := answers[1..]];
          k := k + 1;
          continue;
        }
        SearchTurns(nets, pend, k, tempstr);
        CompletesShift(done, answers, Owed(nets, pend, k), Compose(nets, s));
        if result.Some? && pos == tail {
          assert answers == [result.value] + pos.ah.pending;
          normalized := EmitAll(pos.ah, s, result);
          SuggestionsAppend(old(output), s, done, answers);
          result := None;
        } else {
          assert done + answers == done;
        }
        done := done + answers;
        if result.None? {
          pos, result, k, pend := MoveUp(pos, k, pend);
        }
        if pos == null {
          break;
        }
        tempstr := result.value;
        pos := pos.next;
        k := k + 1;
      }
      CompletesAtEnd(done, Compose(nets, s));
    }

    // The inner loop: walk the prev pointers to the nearest handle that still has a result.
    method MoveUp(from: ChainNode, ghost k: nat, ghost pend: seq<seq<string>>)
      returns (pos: ChainNode?, result: Option<string>, ghost k': nat, ghost pend': seq<seq<string>>)
      requires Valid() && |pend| == |nodes| && k < |nodes| && from == nodes[k]
      requires forall i :: 0 <= i < k ==> nodes[i].ah.pending == pend[i]
      modifies handles
      ensures Valid()
      ensures pos == null ==> Owed(Nets(), pend, k) == []
      ensures pos != null ==>
        && k' < k && pos == nodes[k'] && pos.next == nodes[k' + 1] && result.Some? && |pend'| == |nodes|
        && (forall i :: 0 <= i <= k' ==> nodes[i].ah.pending == pend'[i])
        && Outstanding(Nets(), pend', k' + 1, result.value) == Owed(Nets(), pend, k)
        && Budget(Nets(), pend', k' + 1, result.value) == OwedVisits(Nets(), pend, k)
    {
      hide Outstanding, Budget;
      ghost var nets := Nets();
      result, k', pend' := None, k, pend;
      pos := from.prev;
      while pos != null
        invariant 0 <= k' <= k && pos == (if k' > 0 then nodes[k' - 1] else null)
        invariant forall i :: 0 <= i < k' ==> nodes[i].ah.pending == pend[i]
        invariant Owed(nets, pend, k) == Owed(nets, pend, k')
        invariant OwedVisits(nets, pend, k) == OwedVisits(nets, pend, k')
        decreases k'
      {
        result := pos.ah.Apply(None);
        k' := k' - 1;
        if result.Some? {
          SearchResumes(nets, pend, k');
          pend' := pend[k' := pend[k'][1..]];
          break;
        }
        SearchSkips(nets, pend, k');
        pos := pos.prev;
      }
    }
  }

  lemma {:induction false} ReversedSnoc(nets: seq<Net>, last: Net)
    ensures Reversed(nets + [last]) == [last] + Reversed(nets)
  {
    if nets == [] {
    } else {
      assert (nets + [last])[1..] == nets[1..] + [last];
      ReversedSnoc(nets[1..], last);
    }
  }

  // A prepended chain runs the nets last loaded first.
  lemma {:induction false} ReversedAt(nets: seq<Net>, i: nat)
    requires i < |nets|
    ensures |Reversed(nets)| == |nets| && Reversed(nets)[i] == nets[|nets| - 1 - i]
  {
    if |nets| > 1 {
      ReversedAt(nets[1..], if i < |nets| - 1 then i else 0);
    }
  }
}
