// The reading loop of outputSentences.cpp: generated words, one per line, gathered into the columns
// of a lattice that is expanded, scored and printed at each end-of-sentence line.
module SentenceReader {
  import opened Expansions
  import opened Strings
  import opened Tokens
  import opened SentenceMatrix
  import opened Scores

  // ---- Grouping words into columns. ----

  // The test ^/.+ on a word.
  predicate IsAlternative(word: string)
  {
    |word| >= 2 && word[0] == '/'
  }

  lemma AlternativeIff(word: string)
    ensures IsAlternative(word) <==> exists c, rest :: word == ['/', c] + rest
  {
    if IsAlternative(word) {
      assert word == ['/', word[1]] + word[2..];
    }
  }

  function AddWord(columns: Lattice, word: string): Lattice
  {
    if columns != [] && IsAlternative(word) then
      var k := |columns| - 1;
      columns[k := columns[k] + [word]]
    else columns + [[word]]
  }

  function Group(words: seq<string>): Lattice
  {
    if words == [] then []
    else
      var k := |words| - 1;
      AddWord(Group(words[..k]), words[k])
  }

  // The lattice at an end-of-sentence line; reading the size of column 0 creates it when there was
  // no word.
  function LatticeOf(words: seq<string>): Lattice
  {
    if words == [] then [[]] else Group(words)
  }

  function Flatten(columns: Lattice): seq<string>
  {
    if columns == [] then [] else Flatten(columns[..|columns| - 1]) + columns[|columns| - 1]
  }

  // What makes a grouping right, without saying how it is computed: the columns concatenate to the
  // words, every word after the first of its column is an alternative, and every column but the
  // first starts with a word that is not.
  ghost predicate IsGrouping(columns: Lattice, words: seq<string>)
  {
    && Flatten(columns) == words
    && (forall c :: 0 <= c < |columns| ==> columns[c] != [])
    && (forall c, i :: 0 <= c < |columns| && 1 <= i < |columns[c]| ==> IsAlternative(columns[c][i]))
    && (forall c :: 1 <= c < |columns| ==> !IsAlternative(columns[c][0]))
  }

  lemma {:induction false} GroupIsGrouping(words: seq<string>)
    ensures IsGrouping(Group(words), words)
  {
    if words == [] {
    } else {
      var k := |words| - 1;
      var before := Group(words[..k]);
      GroupIsGrouping(words[..k]);
      AddWordKeepsGrouping(before, words[..k], words[k]);
      assert words == words[..k] + [words[k]];
    }
  }

  lemma AddWordKeepsGrouping(columns: Lattice, words: seq<string>, word: string)
    requires IsGrouping(columns, words)
    ensures IsGrouping(AddWord(columns, word), words + [word])
  {
    AddWordFlatten(columns, word);
    hide IsAlternative, Flatten;
  }

  lemma AddWordFlatten(columns: Lattice, word: string)
    ensures Flatten(AddWord(columns, word)) == Flatten(columns) + [word]
  {
    hide IsAlternative;
    var longer := AddWord(columns, word);
    var k := |longer| - 1;
    if columns != [] && IsAlternative(word) {
      assert longer[..k] == columns[..k];
      assert Flatten(longer) == Flatten(columns[..k]) + (columns[k] + [word]);
    } else {
      assert longer[..k] == columns;
    }
  }

  // The grouping is unique.
  lemma {:induction false} GroupingIsUnique(a: Lattice, b: Lattice, words: seq<string>)
    requires IsGrouping(a, words) && IsGrouping(b, words)
    ensures a == b
    decreases |words|
  {
    if words == [] {
      NoWordsNoColumns(a);
      NoWordsNoColumns(b);
    } else {
      DropLastWord(a, words);
      DropLastWord(b, words);
      var k := |words| - 1;
      GroupingIsUnique(Unadd(a), Unadd(b), words[..k]);
    }
  }

  lemma FlattenNotEmpty(columns: Lattice)
    requires columns != [] && columns[|columns| - 1] != []
    ensures Flatten(columns) != []
  {
  }

  lemma NoWordsNoColumns(columns: Lattice)
    requires IsGrouping(columns, [])
    ensures columns == []
  {
    if columns != [] {
      FlattenNotEmpty(columns);
    }
  }

  ghost function Unadd(columns: Lattice): Lattice
    requires columns != [] && columns[|columns| - 1] != []
  {
    var k := |columns| - 1;
    var column := columns[k];
    if |column| == 1 then columns[..k] else columns[k := column[..|column| - 1]]
  }

  lemma DropLastWord(columns: Lattice, words: seq<string>)
    requires IsGrouping(columns, words) && words != []
    ensures columns != [] && columns[|columns| - 1] != []
    ensures IsGrouping(Unadd(columns), words[..|words| - 1])
    ensures columns == AddWord(Unadd(columns), words[|words| - 1])
  {
    var k := |columns| - 1;
    var column := columns[k];
    var short := Unadd(columns);
    var last := |column| - 1;
    assert column == column[..last] + [column[last]];
    assert words == Flatten(columns[..k]) + column;
    if |column| == 1 {
      assert Flatten(short) == words[..|words| - 1];
    } else {
      assert short[..k] == columns[..k];
      assert Flatten(short) == Flatten(columns[..k]) + column[..last] == words[..|words| - 1];
    }
  }

  lemma {:induction false} CountSnoc(columns: Lattice, last: seq<string>)
    ensures Count(columns + [last]) == Count(columns) * |last|
  {
    if columns == [] {
      assert [last][1..] == [];
      assert Count([last]) == |last| * Count([last][1..]);
    } else {
      assert (columns + [last])[1..] == columns[1..] + [last];
      CountSnoc(columns[1..], last);
      MulAssoc(|columns[0]|, Count(columns[1..]), |last|);
    }
  }

  lemma MulAssoc(a: nat, b: nat, c: nat)
    ensures a * (b * c) == (a * b) * c
  {
  }

  // ---- Input lines. ----

  // erase_all of tabs and newlines.
  function Clean(line: string): string
  {
    Without(line, "\t\n")
  }

  predicate EndsSentence(line: string)
  {
    Contains(line, "#EOS")
  }

  // The word lists of the sentences that are closed in the input, given the words already read.
  function Sentences(words: seq<string>, lines: seq<string>): seq<seq<string>>
    decreases |lines|
  {
    if lines == [] then []
    else if lines[0] == "" then Sentences(words, lines[1..])
    else if EndsSentence(lines[0]) then [words] + Sentences([], lines[1..])
    else Sentences(words + [Clean(lines[0])], lines[1..])
  }

  // The words of the lines that are not empty, tabs and newlines erased.
  ghost predicate AreWordsOf(words: seq<string>, lines: seq<string>)
  {
    if lines == [] then words == []
    else if lines[|lines| - 1] == "" then AreWordsOf(words, lines[..|lines| - 1])
    else
      && words != [] && words[|words| - 1] == Without(lines[|lines| - 1], "\t\n")
      && AreWordsOf(words[..|words| - 1], lines[..|lines| - 1])
  }

  ghost predicate NoneEnds(lines: seq<string>)
  {
    forall i :: 0 <= i < |lines| ==> !Occurs(lines[i], "#EOS")
  }

  lemma {:induction false} WordLines(words: seq<string>, lines: seq<string>, later: seq<string>)
    returns (more: seq<string>)
    requires NoneEnds(lines)
    ensures AreWordsOf(more, lines) && Sentences(words, lines + later) == Sentences(words + more, later)
    decreases |lines|
  {
    hide Contains, Occurs;
    if lines == [] {
      more := [];
      assert lines + later == later && words + more == words;
    } else {
      var k := |lines| - 1;
      var line := lines[k];
      ContainsIff(line, "#EOS");
      assert lines + later == lines[..k] + ([line] + later) && ([line] + later)[1..] == later;
      var before := WordLines(words, lines[..k], [line] + later);
      if line == "" {
        more := before;
      } else {
        more := before + [Clean(line)];
        assert words + more == words + before + [Clean(line)];
        assert more[..|more| - 1] == before;
      }
    }
  }

  // A sentence is the words of the lines before a line with the end sign, and the next begins behind it.
  lemma OneSentence(lines: seq<string>, end: string, later: seq<string>) returns (words: seq<string>)
    requires NoneEnds(lines) && Occurs(end, "#EOS")
    ensures AreWordsOf(words, lines) && Sentences([], lines + ([end] + later)) == [words] + Sentences([], later)
  {
    hide Contains, Occurs, FindText;
    words := WordLines([], lines, [end] + later);
    ContainsIff(end, "#EOS");
    assert [] + words == words && ([end] + later)[1..] == later;
    ShortText(end);
  }

  // Lines without an end sign behind them make no sentence.
  lemma NoSentence(lines: seq<string>)
    requires NoneEnds(lines)
    ensures Sentences([], lines) == []
  {
    hide NoneEnds;
    var words := WordLines([], lines, []);
    assert lines + [] == lines;
  }

  lemma ShortText(end: string)
    ensures Occurs(end, "#EOS") ==> end != ""
  {
  }

  // The reader's counters: the number of the open column, and the product of the sizes of the
  // columns already closed.
  ghost predicate Counted(words: seq<string>, wordcount: nat, nbrOfAltSents: nat)
  {
    var columns := Group(words);
    && (words == [] <==> columns == [])
    && wordcount == (if columns == [] then 0 else |columns| - 1)
    && nbrOfAltSents == Count(columns[..wordcount])
  }

  lemma NothingCounted()
    ensures Group([]) == [] && Counted([], 0, 1)
  {
  }

  class Reader<!S> {
    const model: Model<S>
    const cutoff: int
    const morphProbs: bool
    const printer: LatticePrinter
    var output: seq<seq<Scored>>

    constructor (model: Model<S>, cutoff: int, morphProbs: bool)
      ensures this.model == model && this.cutoff == cutoff && this.morphProbs == morphProbs
      ensures fresh(printer) && printer.sentLattice == map[] && printer.sentOpts == 0 && output == []
    {
      this.model, this.cutoff, this.morphProbs := model, cutoff, morphProbs;
      printer := new LatticePrinter();
      output := [];
    }

    // Every sentence of the input gets one n-best list, over the lattice its words group into.
    ghost predicate PrintedFor(sentences: seq<seq<string>>)
      reads this`output
    {
      && |output| == |sentences|
      && forall k :: 0 <= k < |output| ==> IsNBest(output[k], model, LatticeOf(sentences[k]), cutoff, morphProbs)
    }

    method ReadInput(lines: seq<string>)
      requires output == [] && printer.Holds([]) && printer.sentOpts == 0
      modifies this`output, printer
      ensures PrintedFor(Sentences([], lines))
    {
      hide Sentences, Group, IsNBest, Counted, EndsSentence, Clean, LatticeOf;
      var newSentence := true;
      var wordcount, nbrOfAltSents := 0, 1;
      ghost var words: seq<string> := [];
      ghost var done: seq<seq<string>> := [];
      NothingCounted();
      assert lines[0..] == lines && [] + Sentences([], lines) == Sentences([], lines);
      for n := 0 to |lines|
        invariant printer.sentOpts == 0 && printer.Holds(Group(words))
        invariant newSentence <==> words == []
        invariant Counted(words, wordcount, nbrOfAltSents)
        invariant PrintedFor(done)
        invariant done + Sentences(words, lines[n..]) == Sentences([], lines)
      {
        var line := lines[n];
        NextLine(words, lines, n);
        if line != "" {
          if EndsSentence(line) {
            newSentence := true;
            CloseSentence(words, wordcount, nbrOfAltSents);
            wordcount, nbrOfAltSents := 0, 1;
            assert done + ([words] + Sentences([], lines[n + 1..])) == done + [words] + Sentences([], lines[n + 1..]);
            done := done + [words];
            words := [];
            NothingCounted();
          } else {
            var word := Clean(line);
            wordcount, nbrOfAltSents := StoreWord(words, word, newSentence, wordcount, nbrOfAltSents);
            newSentence := false;
            words := words + [word];
          }
        }
      }
      EndOfInput(words, lines);
      assert done + [] == done;
    }

    // A word line: opens a new column or joins the open one as an alternative. The count is
    // multiplied by the size of a column when the column is closed.
    method StoreWord(ghost words: seq<string>, word: string, newSentence: bool, wordcount: nat, nbrOfAltSents: nat)
      returns (wordcount': nat, nbrOfAltSents': nat)
      requires printer.Holds(Group(words)) && Counted(words, wordcount, nbrOfAltSents)
      requires newSentence <==> words == []
      modifies printer`sentLattice
      ensures printer.Holds(Group(words + [word])) && Counted(words + [word], wordcount', nbrOfAltSents')
    {
      hide Group, Count;
      wordcount', nbrOfAltSents' := wordcount, nbrOfAltSents;
      GroupGrows(words, word);
      if newSentence {
        printer.PushBack(Group(words), wordcount', word);
      } else if IsAlternative(word) {
        printer.PushBack(Group(words), wordcount', word);
      } else {
        CloseCount(words);
        var prevWordAlternatives := printer.SizeAt(Group(words), wordcount');
        nbrOfAltSents' := nbrOfAltSents' * prevWordAlternatives;
        wordcount' := wordcount' + 1;
        printer.PushBack(Group(words), wordcount', word);
      }
    }

    // An end-of-sentence line: the last column is closed and the lattice is printed and cleared.
    method CloseSentence(ghost words: seq<string>, wordcount: nat, nbrOfAltSents: nat)
      requires printer.Holds(Group(words)) && Counted(words, wordcount, nbrOfAltSents) && printer.sentOpts == 0
      modifies this`output, printer
      ensures printer.Holds([]) && printer.sentOpts == 0
      ensures |output| == |old(output)| + 1 && output[..|old(output)|] == old(output)
      ensures IsNBest(output[|old(output)|], model, LatticeOf(words), cutoff, morphProbs)
    {
      hide Group, IsNBest, Count;
      CloseCount(words);
      var lastWordAlternatives := printer.SizeAt(Group(words), wordcount);
      var closed := nbrOfAltSents * lastWordAlternatives;
      PrintLattice(words, closed);
      printer.sentLattice := map[];
    }

    // Expands, scores, sorts and cuts one lattice.
    method PrintLattice(ghost words: seq<string>, nbrOfAltSents: nat)
      requires printer.Holds(LatticeOf(words)) && nbrOfAltSents == Count(LatticeOf(words)) && printer.sentOpts == 0
      modifies this`output, printer`sentOpts, printer`sentMatrix
      ensures printer.sentOpts == 0
      ensures |output| == |old(output)| + 1 && output[..|old(output)|] == old(output)
      ensures IsNBest(output[|old(output)|], model, LatticeOf(words), cutoff, morphProbs)
    {
      hide Expand, Score, Group, Count, IsNBest, IsFull;
      ghost var lattice := LatticeOf(words);
      assert lattice == [[]] || lattice == Group(words);
      GroupIsGrouping(words);
      assert words != [] ==> Flatten(Group(words)) != Flatten([]);
      printer.BuildMatrix(lattice, nbrOfAltSents);
      var opts := ScoreRows(lattice, printer.sentMatrix);
      var sorted := Sort(opts);
      CutIsNBest(opts, sorted, model, lattice, cutoff, morphProbs);
      output := output + [sorted[..Printed(cutoff, |sorted|)]];
    }

    method ScoreRows(ghost lattice: Lattice, matrix: Matrix) returns (opts: seq<Scored>)
      requires IsFull(matrix, lattice)
      ensures |opts| == |Expand(lattice)|
      ensures forall k :: 0 <= k < |opts| ==> opts[k] == Scored(Score(model, Expand(lattice)[k], morphProbs), k)
    {
      hide Expand, Score;
      KeysBelow(matrix, |Expand(lattice)|);
      opts := [];
      for opt := 0 to |matrix|
        invariant |opts| == opt
        invariant forall k :: 0 <= k < opt ==> opts[k] == Scored(Score(model, Expand(lattice)[k], morphProbs), k)
      {
        var sent := matrix[opt];
        assert IsSentence(sent, Expand(lattice)[opt]);
        var row := seq(|sent|, i requires 0 <= i < |sent| => sent[i]);
        assert row == Expand(lattice)[opt];
        var total := ScoreRow(model, row, morphProbs);
        opts := opts + [Scored(total, opt)];
      }
    }
  }

  lemma NextLine(words: seq<string>, lines: seq<string>, n: nat)
    requires n < |lines|
    ensures var rest := lines[n + 1..];
      Sentences(words, lines[n..])
      == if lines[n] == "" then Sentences(words, rest)
         else if EndsSentence(lines[n]) then [words] + Sentences([], rest)
         else Sentences(words + [Clean(lines[n])], rest)
  {
    assert lines[n..][1..] == lines[n + 1..];
  }

  lemma EndOfInput(words: seq<string>, lines: seq<string>)
    ensures Sentences(words, lines[|lines|..]) == []
  {
  }

  // What one more word does to the grouping and to the number of closed columns.
  lemma GroupGrows(words: seq<string>, word: string)
    ensures words != [] ==> Group(words) != []
    ensures Group(words + [word]) == AddWord(Group(words), word) != []
    ensures var before := Group(words);
      Group(words + [word])[..|Group(words + [word])| - 1]
      == if before != [] && IsAlternative(word) then before[..|before| - 1] else before
  {
    assert (words + [word])[..|words|] == words;
  }

  // Multiplying in the size of the open column gives the count of the whole lattice.
  lemma CloseCount(words: seq<string>)
    requires words == [] <==> Group(words) == []
    ensures words != [] ==>
      var columns := Group(words);
      var k := |columns| - 1;
      Count(columns[..k]) * |columns[k]| == Count(columns) && columns[..k + 1] == columns
    ensures words == [] ==> LatticeOf(words) == [[]] && Count(LatticeOf(words)) == 0
  {
    var columns := Group(words);
    if words != [] {
      var k := |columns| - 1;
      assert columns == columns[..k] + [columns[k]];
      CountSnoc(columns[..k], columns[k]);
    }
  }

  // An end sign without a word before it prints an empty list; any other sentence prints the lattice its words
  // group into.
  lemma LatticeIs<S>(words: seq<string>, list: seq<Scored>, model: Model<S>, cutoff: int, morphProbs: bool)
    ensures words != [] ==> IsGrouping(LatticeOf(words), words)
    ensures words == [] && IsNBest(list, model, LatticeOf(words), cutoff, morphProbs) ==> list == []
  {
    hide Score, Group;
    GroupIsGrouping(words);
    if words == [] {
      ExpandLength([[]]);
    }
  }
}
