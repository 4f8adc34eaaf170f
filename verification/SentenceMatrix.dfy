// The sentence matrix of outputSentences.cpp: nested maps filled by a recursion that advances a
// global row counter and back-fills the columns of the words it recursed from.
module SentenceMatrix {
  import opened Expansions

  type Row = map<nat, string>
  type Matrix = map<nat, Row>

  // operator[] on the outer map: a missing row is created empty.
  function RowOf(m: Matrix, r: nat): Row
  {
    if r in m then m[r] else map[]
  }

  function Put(m: Matrix, r: nat, c: nat, word: string): Matrix
  {
    m[r := RowOf(m, r)[c := word]]
  }

  function Filled(row: Row, cols: seq<nat>, words: seq<string>): Row
    requires |cols| == |words|
  {
    if cols == [] then row else Filled(row, cols[1..], words[1..])[cols[0] := words[0]]
  }

  ghost predicate RowsHaveWidth(rows: seq<seq<string>>, width: nat)
  {
    forall i :: 0 <= i < |rows| ==> |rows[i]| == width
  }

  // The matrix after writing rows at row numbers start, start + 1, ... and the given columns.
  ghost function Stamp(m: Matrix, start: nat, cols: seq<nat>, rows: seq<seq<string>>): Matrix
    requires RowsHaveWidth(rows, |cols|)
  {
    if rows == [] then m
    else
      var n := |rows| - 1;
      Stamp(m, start, cols, rows[..n])[start + n := Filled(RowOf(m, start + n), cols, rows[n])]
  }

  lemma {:induction false} StampAt(m: Matrix, start: nat, cols: seq<nat>, rows: seq<seq<string>>, r: nat)
    requires RowsHaveWidth(rows, |cols|)
    ensures r in Stamp(m, start, cols, rows) <==> r in m || start <= r < start + |rows|
    ensures r in Stamp(m, start, cols, rows) ==>
      Stamp(m, start, cols, rows)[r]
      == if start <= r < start + |rows| then Filled(RowOf(m, r), cols, rows[r - start]) else m[r]
  {
    hide Filled;
    if rows == [] {
    } else {
      StampAt(m, start, cols, rows[..|rows| - 1], r);
    }
  }

  lemma {:induction false} StampAppend(m: Matrix, start: nat, cols: seq<nat>,
                                       us: seq<seq<string>>, vs: seq<seq<string>>)
    requires RowsHaveWidth(us, |cols|) && RowsHaveWidth(vs, |cols|)
    ensures RowsHaveWidth(us + vs, |cols|)
    ensures Stamp(Stamp(m, start, cols, us), start + |us|, cols, vs) == Stamp(m, start, cols, us + vs)
  {
    hide Filled;
    if vs == [] {
      assert us + vs == us;
    } else {
      var n := |vs| - 1;
      assert (us + vs)[..|us| + n] == us + vs[..n] && (us + vs)[|us| + n] == vs[n];
      StampAppend(m, start, cols, us, vs[..n]);
      StampAt(m, start, cols, us, start + |us| + n);
    }
  }

  lemma PrefixAt(word: string, tails: seq<seq<string>>, width: nat)
    requires RowsHaveWidth(tails, width)
    ensures |Prefix(word, tails)| == |tails| && RowsHaveWidth(Prefix(word, tails), width + 1)
    ensures forall i :: 0 <= i < |tails| ==> Prefix(word, tails)[i] == [word] + tails[i]
  {
  }

  lemma FilledCons(row: Row, cols: seq<nat>, word: string, words: seq<string>)
    requires |cols| == |words| + 1
    ensures Filled(row, cols, [word] + words) == Filled(row, cols[1..], words)[cols[0] := word]
  {
    assert ([word] + words)[1..] == words;
  }

  // Back-filling one column of freshly stamped rows stamps the rows with that word in front.
  lemma StampColumn(m: Matrix, m': Matrix, start: nat, cols: seq<nat>, word: string, tails: seq<seq<string>>)
    requires cols != [] && RowsHaveWidth(tails, |cols| - 1)
    requires var deep := Stamp(m, start, cols[1..], tails);
      && m'.Keys == deep.Keys
      && forall r :: r in deep ==>
        m'[r] == if start <= r < start + |tails| then deep[r][cols[0] := word] else deep[r]
    ensures RowsHaveWidth(Prefix(word, tails), |cols|)
    ensures m' == Stamp(m, start, cols, Prefix(word, tails))
  {
    hide Filled, Stamp, Prefix;
    PrefixAt(word, tails, |cols| - 1);
    var stamped := Stamp(m, start, cols, Prefix(word, tails));
    forall r: nat
      ensures r in m' <==> r in stamped
      ensures r in m' ==> m'[r] == stamped[r]
    {
      StampAt(m, start, cols[1..], tails, r);
      StampAt(m, start, cols, Prefix(word, tails), r);
      if start <= r < start + |tails| {
        FilledCons(RowOf(m, r), cols, word, tails[r - start]);
      }
    }
  }

  lemma StampCell(m: Matrix, start: nat, cols: seq<nat>, word: string)
    requires |cols| == 1
    ensures RowsHaveWidth([[]], |cols[1..]|) && RowsHaveWidth(Prefix(word, [[]]), |cols|)
    ensures Put(m, start, cols[0], word) == Stamp(m, start, cols, Prefix(word, [[]]))
  {
    assert cols[1..] == [];
    StampColumn(m, Put(m, start, cols[0], word), start, cols, word, [[]]);
  }

  lemma {:induction false} ExpandedWidths(lattice: Lattice)
    ensures RowsHaveWidth(Expand(lattice), |lattice|)
  {
    forall r | 0 <= r < |Expand(lattice)|
      ensures |Expand(lattice)[r]| == |lattice|
    {
      ExpandedWidth(lattice, r);
    }
  }

  lemma StampCovers(m: Matrix, start: nat, cols: seq<nat>, rows: seq<seq<string>>)
    requires RowsHaveWidth(rows, |cols|)
    ensures forall r :: start <= r < start + |rows| ==> r in Stamp(m, start, cols, rows)
  {
    forall r | start <= r < start + |rows|
      ensures r in Stamp(m, start, cols, rows)
    {
      StampAt(m, start, cols, rows, r);
    }
  }

  // Bookkeeping of the insertion loop: before the first word nothing is stamped, and each word
  // stamps its own block of rows after those of the words before it.
  lemma InsertStarts(m: Matrix, start: nat, cols: seq<nat>, words: seq<string>, tails: seq<seq<string>>)
    ensures PrefixAll(words[..0], tails) == []
    ensures RowsHaveWidth(PrefixAll(words[..0], tails), |cols|)
    ensures Stamp(m, start, cols, PrefixAll(words[..0], tails)) == m
  {
  }

  lemma InsertAdvances(m: Matrix, start: nat, cols: seq<nat>, words: seq<string>, n: nat, tails: seq<seq<string>>)
    requires n < |words| && cols != [] && RowsHaveWidth(tails, |cols| - 1)
    requires RowsHaveWidth(PrefixAll(words[..n], tails), |cols|)
    ensures var done := PrefixAll(words[..n], tails);
      var next := Prefix(words[n], tails);
      && |next| == |tails| && RowsHaveWidth(next, |cols|)
      && PrefixAll(words[..n + 1], tails) == done + next
      && RowsHaveWidth(done + next, |cols|)
      && Stamp(m, start, cols, done + next) == Stamp(Stamp(m, start, cols, done), start + |done|, cols, next)
  {
    hide Stamp, Filled;
    PrefixAllSnoc(words[..n], words[n], tails);
    assert words[..n + 1] == words[..n] + [words[n]];
    StampAppend(m, start, cols, PrefixAll(words[..n], tails), Prefix(words[n], tails));
  }

  // ---- The finished matrix. ----

  // Row r holds sentence r of the expansion, under the columns 0, 1, ..., and there are no others.
  ghost predicate IsFull(m: Matrix, lattice: Lattice)
  {
    && (forall r: nat :: r in m <==> r < |Expand(lattice)|)
    && (forall r: nat :: r in m ==> IsSentence(m[r], Expand(lattice)[r]))
  }

  ghost predicate IsSentence(row: Row, words: seq<string>)
  {
    && |row| == |words|
    && (forall c: nat :: c in row <==> c < |words|)
    && (forall c: nat :: c < |words| ==> row[c] == words[c])
  }

  // Before the insertion: the words of the unambiguous columns below i are in place.
  ghost predicate SinglesIn(row: Row, lattice: Lattice, i: nat)
    requires i <= |lattice|
  {
    && (forall c: nat :: c in row <==> c < i && |lattice[c]| == 1)
    && (forall c: nat :: c in row ==> row[c] == lattice[c][0])
  }

  ghost predicate Prefilled(m: Matrix, lattice: Lattice, i: nat, lo: nat, hi: nat)
    requires i <= |lattice|
  {
    forall r: nat :: lo <= r < hi ==> SinglesIn(RowOf(m, r), lattice, i)
  }

  // A row the insertion completes: all single words present, nothing outside the lattice.
  ghost predicate Completable(row: Row, lattice: Lattice, i: nat)
  {
    && (forall c: nat :: i <= c < |lattice| && |lattice[c]| == 1 ==> c in row && row[c] == lattice[c][0])
    && (forall c: nat :: c in row ==> c < |lattice|)
  }

  lemma AmbiguousHead(lattice: Lattice, from: nat)
    requires from < |lattice|
    ensures |lattice[from]| <= 1 ==> Ambiguous(lattice, from) == Ambiguous(lattice, from + 1)
    ensures |lattice[from]| > 1 ==>
      && Ambiguous(lattice, from) != [] && Ambiguous(lattice, from)[0] == from
      && Ambiguous(lattice, from)[1..] == Ambiguous(lattice, from + 1)
  {
  }

  lemma {:induction false} FilledIsMerge(lattice: Lattice, from: nat, row: Row, words: seq<string>, c: nat)
    requires from <= |lattice| && |words| == |Ambiguous(lattice, from)|
    requires forall k :: from <= k < |lattice| ==> lattice[k] != []
    requires Completable(row, lattice, from)
    ensures var done := Filled(row, Ambiguous(lattice, from), words);
      var merged := Merge(lattice, from, words);
      && |merged| == |lattice| - from
      && (from <= c < |lattice| ==> c in done && done[c] == merged[c - from])
    decreases |lattice| - from
  {
    hide Ambiguous;
    if from < |lattice| {
      AmbiguousHead(lattice, from);
      var words' := if |lattice[from]| > 1 then words[1..] else words;
      FilledIsMerge(lattice, from + 1, row, words', c);
      FilledKeeps(lattice, from + 1, row, words', from);
    }
  }

  lemma {:induction false} FilledKeeps(lattice: Lattice, from: nat, row: Row, words: seq<string>, c: nat)
    requires from <= |lattice| && |words| == |Ambiguous(lattice, from)|
    requires c < from || c >= |lattice|
    ensures c in Filled(row, Ambiguous(lattice, from), words) <==> c in row
    ensures c in row ==> Filled(row, Ambiguous(lattice, from), words)[c] == row[c]
    decreases |lattice| - from
  {
    if from < |lattice| {
      AmbiguousHead(lattice, from);
      FilledKeeps(lattice, from + 1, row, if |lattice[from]| > 1 then words[1..] else words, c);
    }
  }

  lemma {:induction false} KeysBelow<V>(m: map<nat, V>, n: nat)
    requires forall c: nat :: c in m <==> c < n
    ensures |m| == n
  {
    if n > 0 {
      KeysBelow(m - {n - 1}, n - 1);
      assert m == (m - {n - 1})[n - 1 := m[n - 1]];
    } else {
      assert m == map[];
    }
  }

  // A lattice without ambiguous columns is one sentence, and its row is complete already.
  lemma NothingToInsert(m: Matrix, lattice: Lattice)
    requires lattice != [] && lattice[0] != [] && Ambiguous(lattice, 0) == []
    requires Completable(RowOf(m, 0), lattice, 0)
    requires RowsHaveWidth(Expand([]), 0)
    ensures Stamp(m, 0, [], Expand([])) == m
  {
    AmbiguousHead(lattice, 0);
    assert 0 in RowOf(m, 0);
    var rows := Expand([]);
    assert rows[..0] == [];
    assert Stamp(m, 0, [], rows) == Stamp(m, 0, [], rows[..0])[0 := Filled(RowOf(m, 0), [], rows[0])];
  }

  lemma AmbiguousIsSkipped(m: Matrix, lattice: Lattice, i: nat, n: nat)
    requires i < |lattice| && |lattice[i]| > 1 && Prefilled(m, lattice, i, 0, n)
    ensures Prefilled(m, lattice, i + 1, 0, n)
  {
  }

  lemma NothingPrefilled(lattice: Lattice, n: nat)
    ensures Prefilled(map[], lattice, 0, 0, n)
    ensures lattice == [[]] ==> Count(lattice) == 0
  {
  }

  lemma PrefilledIsCompletable(m: Matrix, lattice: Lattice, n: nat)
    requires Prefilled(m, lattice, |lattice|, 0, n)
    ensures forall r: nat :: r < n ==> Completable(RowOf(m, r), lattice, 0)
  {
    forall r: nat | r < n
      ensures Completable(RowOf(m, r), lattice, 0)
    {
      assert SinglesIn(RowOf(m, r), lattice, |lattice|);
    }
  }

  lemma RowCompletes(lattice: Lattice, cols: seq<nat>, row: Row, words: seq<string>)
    requires forall k :: 0 <= k < |lattice| ==> lattice[k] != []
    requires cols == Ambiguous(lattice, 0) && |words| == |cols| && Completable(row, lattice, 0)
    ensures IsSentence(Filled(row, cols, words), Merge(lattice, 0, words))
  {
    hide Filled, Merge;
    FilledIsMerge(lattice, 0, row, words, 0);
    var done := Filled(row, cols, words);
    forall c: nat
      ensures c in done <==> c < |lattice|
      ensures c < |lattice| ==> done[c] == Merge(lattice, 0, words)[c]
    {
      if c < |lattice| {
        FilledIsMerge(lattice, 0, row, words, c);
      } else {
        FilledKeeps(lattice, 0, row, words, c);
      }
    }
    KeysBelow(done, |lattice|);
  }

  // Stamping the combinations of the ambiguous words onto prefilled rows gives the full matrix.
  lemma InsertionCompletes(m: Matrix, lattice: Lattice, cols: seq<nat>)
    requires forall c :: 0 <= c < |lattice| ==> lattice[c] != []
    requires cols == Ambiguous(lattice, 0) && forall k :: 0 <= k < |cols| ==> cols[k] < |lattice|
    requires forall r: nat :: r in m ==> r < Count(lattice)
    requires forall r: nat :: r < Count(lattice) ==> Completable(RowOf(m, r), lattice, 0)
    ensures RowsHaveWidth(Expand(Columns(lattice, cols)), |cols|)
    ensures IsFull(Stamp(m, 0, cols, Expand(Columns(lattice, cols))), lattice)
  {
    hide Stamp, Filled, Merge, Expand;
    var rows := Expand(Columns(lattice, cols));
    ExpandedWidths(Columns(lattice, cols));
    ExpandLength(lattice);
    assert lattice[0..] == lattice;
    ExpandIsMerge(lattice, 0, cols);
    var full := Stamp(m, 0, cols, rows);
    forall r: nat
      ensures r in full <==> r < |rows|
      ensures r in full ==> IsSentence(full[r], Expand(lattice)[r])
    {
      StampAt(m, 0, cols, rows, r);
      if r < |rows| {
        RowCompletes(lattice, cols, RowOf(m, r), rows[r]);
      }
    }
  }

  class LatticePrinter {
    var sentLattice: map<nat, seq<string>>
    var sentOpts: nat
    var sentMatrix: Matrix

    ghost predicate Holds(lattice: Lattice)
      reads this`sentLattice
    {
      && |sentLattice| == |lattice|
      && (forall i: nat :: i in sentLattice <==> i < |lattice|)
      && (forall i: nat :: i < |lattice| ==> sentLattice[i] == lattice[i])
    }

    constructor ()
      ensures sentLattice == map[] && sentOpts == 0 && sentMatrix == map[]
    {
      sentLattice, sentOpts, sentMatrix := map[], 0, map[];
    }

    // sentLattice[k].push_back(word): the column is created when it is missing.
    method PushBack(ghost lattice: Lattice, k: nat, word: string)
      requires Holds(lattice) && k <= |lattice|
      modifies this`sentLattice
      ensures Holds(if k < |lattice| then lattice[k := lattice[k] + [word]] else lattice + [[word]])
    {
      sentLattice := sentLattice[k := (if k in sentLattice then sentLattice[k] else []) + [word]];
    }

    // sentLattice[k].size(): looking at a missing column creates it empty.
    method SizeAt(ghost lattice: Lattice, k: nat) returns (size: nat)
      requires Holds(lattice) && k <= |lattice|
      modifies this`sentLattice
      ensures size == if k < |lattice| then |lattice[k]| else 0
      ensures Holds(if k < |lattice| then lattice else lattice + [[]])
    {
      if k !in sentLattice {
        sentLattice := sentLattice[k := []];
      }
      size := |sentLattice[k]|;
    }

    // Fills the ambiguous columns indexes[first..] of the next rows with every combination of their
    // words, in order, and advances the row counter by the number of combinations.
    method InsertTransOpts(ghost lattice: Lattice, first: nat, last: nat, indexes: seq<nat>)
      requires Holds(lattice)
      requires first <= last == |indexes| - 1
      requires forall k :: 0 <= k < |indexes| ==> indexes[k] < |lattice|
      modifies this`sentOpts, this`sentMatrix
      ensures var cols := indexes[first..];
        var rows := Expand(Columns(lattice, cols));
        && sentOpts == old(sentOpts) + Count(Columns(lattice, cols))
        && RowsHaveWidth(rows, |cols|)
        && sentMatrix == Stamp(old(sentMatrix), old(sentOpts), cols, rows)
      decreases last - first
    {
      hide Stamp, Prefix, PrefixAll, Count, RowsHaveWidth;
      var wordarray := sentLattice[indexes[first]];
      var thisindex := indexes[first];
      ghost var cols := indexes[first..];
      ghost var sub := Columns(lattice, cols);
      ghost var tails := Expand(sub[1..]);
      ExpandedWidths(sub);
      ExpandedWidths(sub[1..]);
      ExpandLength(sub);
      ExpandLength(sub[1..]);
      assert sub[1..] == Columns(lattice, cols[1..]) && cols[1..] == indexes[first + 1..];
      InsertStarts(sentMatrix, sentOpts, cols, wordarray, tails);
      for n := 0 to |wordarray|
        invariant Holds(lattice)
        invariant RowsHaveWidth(PrefixAll(wordarray[..n], tails), |cols|)
        invariant sentOpts == old(sentOpts) + |PrefixAll(wordarray[..n], tails)|
        invariant sentMatrix == Stamp(old(sentMatrix), old(sentOpts), cols, PrefixAll(wordarray[..n], tails))
      {
        ghost var before, start := sentMatrix, sentOpts;
        if first < last {
          var startOpts := sentOpts;
          InsertTransOpts(lattice, first + 1, last, indexes);
          StampCovers(before, start, cols[1..], tails);
          FillColumn(startOpts, thisindex, wordarray[n]);
          StampColumn(before, sentMatrix, start, cols, wordarray[n], tails);
        } else {
          sentMatrix := Put(sentMatrix, sentOpts, thisindex, wordarray[n]);
          sentOpts := sentOpts + 1;
          assert sub[1..] == [];
          StampCell(before, start, cols, wordarray[n]);
        }
        InsertAdvances(old(sentMatrix), old(sentOpts), cols, wordarray, n, tails);
      }
      assert wordarray[..|wordarray|] == wordarray;
    }

    // The loop after the recursive call.
    method FillColumn(startOpts: nat, column: nat, word: string)
      requires startOpts <= sentOpts && forall r :: startOpts <= r < sentOpts ==> r in sentMatrix
      modifies this`sentMatrix
      ensures sentMatrix.Keys == old(sentMatrix).Keys
      ensures forall r :: r in old(sentMatrix) ==>
        sentMatrix[r] == if startOpts <= r < sentOpts then old(sentMatrix)[r][column := word] else old(sentMatrix)[r]
    {
      for i := startOpts to sentOpts
        invariant sentMatrix.Keys == old(sentMatrix).Keys
        invariant forall r :: r in old(sentMatrix) ==>
          sentMatrix[r] == if startOpts <= r < i then old(sentMatrix)[r][column := word] else old(sentMatrix)[r]
      {
        sentMatrix := Put(sentMatrix, i, column, word);
      }
    }

    // Builds the matrix of all sentences of the lattice. The count is the one kept by the reader.
    method BuildMatrix(ghost lattice: Lattice, nbrOfAltSents: nat)
      requires Holds(lattice) && lattice != [] && nbrOfAltSents == Count(lattice)
      requires lattice == [[]] || forall c :: 0 <= c < |lattice| ==> lattice[c] != []
      requires sentOpts == 0
      modifies this`sentOpts, this`sentMatrix
      ensures IsFull(sentMatrix, lattice) && sentOpts == 0
    {
      hide Expand, Stamp, Prefilled, Completable;
      var indexes := Prefill(lattice, nbrOfAltSents);
      ghost var before := sentMatrix;
      ExpandLength(lattice);
      if |indexes| > 0 {
        var first, last := 0, |indexes| - 1;
        InsertionCompletes(before, lattice, indexes);
        assert indexes[first..] == indexes;
        InsertTransOpts(lattice, first, last, indexes);
      } else if lattice != [[]] {
        InsertionCompletes(before, lattice, indexes);
        assert Columns(lattice, indexes) == [];
        AmbiguousBounds(lattice, 0);
        CountPositive(lattice);
        NothingToInsert(before, lattice);
      }
      sentOpts := 0;
    }

    // Places the unambiguous words in every row and collects the columns of the others.
    method Prefill(ghost lattice: Lattice, nbrOfAltSents: nat) returns (indexes: seq<nat>)
      requires Holds(lattice) && lattice != [] && nbrOfAltSents == Count(lattice)
      requires lattice == [[]] || forall c :: 0 <= c < |lattice| ==> lattice[c] != []
      modifies this`sentMatrix
      ensures indexes == Ambiguous(lattice, 0)
      ensures forall k :: 0 <= k < |indexes| ==> indexes[k] < |lattice|
      ensures forall r: nat :: r in sentMatrix ==> r < nbrOfAltSents
      ensures forall r: nat :: r < nbrOfAltSents ==> Completable(RowOf(sentMatrix, r), lattice, 0)
    {
      hide Count, Prefilled, SinglesIn, Completable, RowOf, Ambiguous;
      NothingPrefilled(lattice, nbrOfAltSents);
      var nbrOfWords := |sentLattice|;
      indexes, sentMatrix := [], map[];
      for i := 0 to nbrOfWords
        invariant Holds(lattice)
        invariant indexes + Ambiguous(lattice, i) == Ambiguous(lattice, 0)
        invariant forall r: nat :: r in sentMatrix ==> r < nbrOfAltSents
        invariant Prefilled(sentMatrix, lattice, i, 0, nbrOfAltSents)
      {
        AmbiguousHead(lattice, i);
        if |sentLattice[i]| > 1 {
          assert Ambiguous(lattice, i) == [i] + Ambiguous(lattice, i + 1);
          assert indexes + [i] + Ambiguous(lattice, i + 1) == indexes + Ambiguous(lattice, i);
          AmbiguousIsSkipped(sentMatrix, lattice, i, nbrOfAltSents);
          indexes := indexes + [i];
        } else {
          FillSingle(lattice, i, nbrOfAltSents);
        }
      }
      AmbiguousBounds(lattice, 0);
      AmbiguousBounds(lattice, nbrOfWords);
      if |indexes| == |sentLattice| && |sentLattice| > 0 {
        FillDummies(lattice, nbrOfAltSents);
      } else {
        PrefilledIsCompletable(sentMatrix, lattice, nbrOfAltSents);
      }
    }

    // When every word is ambiguous the rows are created with a placeholder in column 0.
    method FillDummies(ghost lattice: Lattice, nbrOfAltSents: nat)
      requires lattice != [] && forall c :: 0 <= c < |lattice| ==> |lattice[c]| > 1
      requires forall r: nat :: r in sentMatrix ==> r < nbrOfAltSents
      requires Prefilled(sentMatrix, lattice, |lattice|, 0, nbrOfAltSents)
      modifies this`sentMatrix
      ensures forall r: nat :: r in sentMatrix ==> r < nbrOfAltSents
      ensures forall r: nat :: r < nbrOfAltSents ==> Completable(RowOf(sentMatrix, r), lattice, 0)
    {
      for opt := 0 to nbrOfAltSents
        invariant forall r: nat :: r in sentMatrix ==> r < nbrOfAltSents
        invariant forall r: nat :: r < nbrOfAltSents ==> Completable(RowOf(sentMatrix, r), lattice, 0)
      {
        ghost var before := sentMatrix;
        sentMatrix := Put(sentMatrix, opt, 0, "dummy");
        assert forall r: nat ::
            RowOf(sentMatrix, r) == (if r == opt then RowOf(before, r)[0 := "dummy"] else RowOf(before, r));
      }
    }

    method FillSingle(ghost lattice: Lattice, i: nat, nbrOfAltSents: nat)
      requires Holds(lattice) && i < |lattice| && |lattice[i]| <= 1
      requires lattice[i] == [] ==> nbrOfAltSents == 0
      requires forall r: nat :: r in sentMatrix ==> r < nbrOfAltSents
      requires Prefilled(sentMatrix, lattice, i, 0, nbrOfAltSents)
      modifies this`sentMatrix
      ensures forall r: nat :: r in sentMatrix ==> r < nbrOfAltSents
      ensures Prefilled(sentMatrix, lattice, i + 1, 0, nbrOfAltSents)
    {
      for opt := 0 to nbrOfAltSents
        invariant forall r: nat :: r in sentMatrix ==> r < nbrOfAltSents
        invariant Prefilled(sentMatrix, lattice, i + 1, 0, opt)
        invariant Prefilled(sentMatrix, lattice, i, opt, nbrOfAltSents)
      {
        ghost var before := sentMatrix;
        sentMatrix := Put(sentMatrix, opt, i, sentLattice[i][0]);
        assert forall r: nat ::
            RowOf(sentMatrix, r) == (if r == opt then RowOf(before, r)[i := lattice[i][0]] else RowOf(before, r));
      }
    }
  }
}
