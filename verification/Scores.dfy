// Scoring, sorting and cutting the rows of a sentence matrix. The language model is an abstract
// state machine and scores are exact reals; characters stand for the source's bytes.
module Scores {
  import opened Expansions
  import opened Strings

  datatype Model<!S> = Model(begin: S, prob: (S, string) -> real, next: (S, string) -> S, eos: string)

  // ---- Tokens of a word, for the surface model and for the lemma-and-morpheme model. ----

  // Removes the leading '/' of an alternative first and then, for punctuation, all but one byte.
  function Surface(w: string): string
  {
    var w1 := if w != "" && w[0] == '/' then w[1..] else w;
    if Contains(w1, "-PUNC-") then w1[..1] else w1
  }

  // Everything up to the last "_NP:" that has a character before it becomes "NP:".
  function ProperName(w: string, i: nat): string
    requires i <= |w|
    decreases i
  {
    if i == 0 then w
    else if "_NP:" <= w[i..] then "NP:" + w[i + 4..]
    else ProperName(w, i - 1)
  }

  function SplitAtColons(w: string): (parts: seq<string>)
    ensures parts != []
    decreases |w|
  {
    var k := Find(w, ':', 0);
    if k == |w| then [w] else [w[..k]] + SplitAtColons(w[k + 1..])
  }

  // End of the run of characters other than '+' that starts at i.
  function PlusFreeEnd(w: string, i: nat): (r: nat)
    requires i <= |w|
    ensures i <= r <= |w|
    decreases |w| - i
  {
    if i == |w| || w[i] == '+' then i else PlusFreeEnd(w, i + 1)
  }

  // The matches of \+[^\+]+, left to right.
  function Morphs(w: string, i: nat): seq<string>
    requires i <= |w|
    decreases |w| - i
  {
    if i == |w| then []
    else if w[i] != '+' then Morphs(w, i + 1)
    else
      var end := PlusFreeEnd(w, i + 1);
      if end == i + 1 then Morphs(w, i + 1) else [w[i..end]] + Morphs(w, end)
  }

  function WordTokens(w: string, morphProbs: bool): (tokens: seq<string>)
    ensures tokens != []
  {
    var surface := Surface(w);
    if !morphProbs then [surface]
    else
      var name := if Contains(surface, "_NP:") then ProperName(surface, |surface|) else surface;
      var strs := SplitAtColons(name);
      [strs[0]] + (if |strs| > 1 then Morphs(strs[1], 0) else [])
  }

  function RowTokens(row: seq<string>, morphProbs: bool): seq<string>
  {
    if row == [] then [] else WordTokens(row[0], morphProbs) + RowTokens(row[1..], morphProbs)
  }

  // ---- A score is one fold of the model over the flattened token sequence. ----

  function Fold<S>(model: Model<S>, state: S, tokens: seq<string>): real
  {
    if tokens == [] then 0.0
    else model.prob(state, tokens[0]) + Fold(model, model.next(state, tokens[0]), tokens[1..])
  }

  function Advance<S>(model: Model<S>, state: S, tokens: seq<string>): S
  {
    if tokens == [] then state else Advance(model, model.next(state, tokens[0]), tokens[1..])
  }

  function Score<S>(model: Model<S>, row: seq<string>, morphProbs: bool): real
  {
    Fold(model, model.begin, RowTokens(row, morphProbs) + [model.eos])
  }

  lemma {:induction false} FoldAppend<S>(model: Model<S>, state: S, us: seq<string>, vs: seq<string>)
    ensures Fold(model, state, us + vs) == Fold(model, state, us) + Fold(model, Advance(model, state, us), vs)
    ensures Advance(model, state, us + vs) == Advance(model, Advance(model, state, us), vs)
  {
    if us == [] {
      assert us + vs == vs;
    } else {
      assert (us + vs)[1..] == us[1..] + vs;
      FoldAppend(model, model.next(state, us[0]), us[1..], vs);
    }
  }

  lemma {:induction false} RowTokensSnoc(row: seq<string>, last: string, morphProbs: bool)
    ensures RowTokens(row + [last], morphProbs) == RowTokens(row, morphProbs) + WordTokens(last, morphProbs)
  {
    if row == [] {
      assert [last][1..] == [];
      assert RowTokens([last], morphProbs) == WordTokens(last, morphProbs) + RowTokens([last][1..], morphProbs);
    } else {
      assert (row + [last])[1..] == row[1..] + [last];
      RowTokensSnoc(row[1..], last, morphProbs);
    }
  }

  // The nested loops of getProbs and getProbsMorphs over one row.
  method ScoreRow<S>(model: Model<S>, row: seq<string>, morphProbs: bool) returns (total: real)
    ensures total == Score(model, row, morphProbs)
  {
    hide WordTokens, RowTokens, Fold, Advance;
    NoTokens(model, model.begin, morphProbs);
    assert row[..0] == [];
    var state := model.begin;
    total := 0.0;
    for i := 0 to |row|
      invariant state == Advance(model, model.begin, RowTokens(row[..i], morphProbs))
      invariant total == Fold(model, model.begin, RowTokens(row[..i], morphProbs))
    {
      ghost var before := RowTokens(row[..i], morphProbs);
      var tokens := WordTokens(row[i], morphProbs);
      assert row[..i + 1] == row[..i] + [row[i]];
      RowTokensSnoc(row[..i], row[i], morphProbs);
      assert before + tokens[..0] == before;
      for j := 0 to |tokens|
        invariant state == Advance(model, model.begin, before + tokens[..j])
        invariant total == Fold(model, model.begin, before + tokens[..j])
      {
        FoldAppend(model, model.begin, before + tokens[..j], [tokens[j]]);
        assert before + tokens[..j] + [tokens[j]] == before + tokens[..j + 1];
        FoldOne(model, state, tokens[j]);
        total := total + model.prob(state, tokens[j]);
        state := model.next(state, tokens[j]);
      }
      assert tokens[..|tokens|] == tokens;
    }
    assert row[..|row|] == row;
    FoldAppend(model, model.begin, RowTokens(row, morphProbs), [model.eos]);
    FoldOne(model, state, model.eos);
    total := total + model.prob(state, model.eos);
  }

  lemma NoTokens<S>(model: Model<S>, state: S, morphProbs: bool)
    ensures RowTokens([], morphProbs) == [] && Fold(model, state, []) == 0.0 && Advance(model, state, []) == state
  {
  }

  lemma FoldOne<S>(model: Model<S>, state: S, token: string)
    ensures Fold(model, state, [token]) == model.prob(state, token)
    ensures Advance(model, state, [token]) == model.next(state, token)
  {
    assert [token][1..] == [];
    assert Fold(model, model.next(state, token), [token][1..]) == 0.0;
  }

  // ---- Sorting and the cut-off. ----

  datatype Scored = Scored(score: real, row: nat)

  ghost predicate Descending(opts: seq<Scored>)
  {
    forall i, j :: 0 <= i < j < |opts| ==> opts[i].score >= opts[j].score
  }

  // Stands for std::sort with probCompare: only this contract is used below, so what follows holds
  // for every order of equal scores.
  method Sort(opts: seq<Scored>) returns (sorted: seq<Scored>)
    ensures Descending(sorted) && multiset(sorted) == multiset(opts)
  {
    sorted := [];
    for i := 0 to |opts|
      invariant Descending(sorted) && multiset(sorted) == multiset(opts[..i])
    {
      sorted := Insert(sorted, opts[i]);
      assert opts[..i + 1] == opts[..i] + [opts[i]];
    }
    assert opts[..|opts|] == opts;
  }

  method Insert(sorted: seq<Scored>, x: Scored) returns (longer: seq<Scored>)
    requires Descending(sorted)
    ensures Descending(longer) && multiset(longer) == multiset(sorted) + multiset{x}
  {
    var k := 0;
    while k < |sorted| && sorted[k].score >= x.score
      invariant k <= |sorted|
      invariant forall j :: 0 <= j < k ==> sorted[j].score >= x.score
    {
      k := k + 1;
    }
    longer := sorted[..k] + [x] + sorted[k..];
    InsertedOnce(sorted, k, x);
  }

  lemma InsertedOnce(sorted: seq<Scored>, k: nat, x: Scored)
    requires k <= |sorted|
    ensures multiset(sorted[..k] + [x] + sorted[k..]) == multiset(sorted) + multiset{x}
  {
    assert sorted == sorted[..k] + sorted[k..];
  }

  // How many lists are printed: CUTOFF comes from atoi and may be zero or negative.
  function Printed(cutoff: int, n: nat): nat
  {
    if cutoff <= 0 then 0 else if cutoff < n then cutoff else n
  }

  // Rows are printed as long as their place is below the cut-off and there is one.
  lemma PrintedIs(cutoff: int, n: nat, s: nat)
    ensures s < Printed(cutoff, n) <==> s < cutoff && s < n
  {
  }

  // What an n-best list of the lattice is: the right number of distinct rows, with their scores,
  // best first, and no row left out that beats one of them.
  ghost predicate IsNBest<S>(list: seq<Scored>, model: Model<S>, lattice: Lattice, cutoff: int, morphProbs: bool)
  {
    && |list| == Printed(cutoff, |Expand(lattice)|)
    && (forall i :: 0 <= i < |list| ==>
          list[i].row < |Expand(lattice)|
          && list[i].score == Score(model, Expand(lattice)[list[i].row], morphProbs))
    && (forall i, j :: 0 <= i < j < |list| ==> list[i].row != list[j].row)
    && Descending(list)
    && (forall r: nat :: r < |Expand(lattice)| && (forall i :: 0 <= i < |list| ==> list[i].row != r) ==>
          forall i :: 0 <= i < |list| ==> Score(model, Expand(lattice)[r], morphProbs) <= list[i].score)
  }

  lemma {:induction false} OccursTwice(s: seq<Scored>, i: nat, j: nat)
    requires i < j < |s| && s[i] == s[j]
    ensures multiset(s)[s[i]] >= 2
  {
    assert s == s[..j] + [s[j]] + s[j + 1..];
    assert s[..j][i] in multiset(s[..j]);
  }

  lemma {:induction false} RowsOnce(opts: seq<Scored>, n: nat)
    requires n <= |opts| && forall k :: 0 <= k < |opts| ==> opts[k].row == k
    ensures forall x :: multiset(opts[..n])[x] <= 1
    ensures forall x :: x in multiset(opts[..n]) ==> x.row < n
  {
    if n == 0 {
    } else {
      RowsOnce(opts, n - 1);
      assert opts[..n] == opts[..n - 1] + [opts[n - 1]];
    }
  }

  // A permutation of scored rows mentions each row exactly once.
  lemma PermutationIsOnce(opts: seq<Scored>, sorted: seq<Scored>)
    requires forall k :: 0 <= k < |opts| ==> opts[k].row == k
    requires multiset(sorted) == multiset(opts)
    ensures |sorted| == |opts|
    ensures forall i :: 0 <= i < |sorted| ==> sorted[i].row < |opts| && sorted[i] == opts[sorted[i].row]
    ensures forall i, j :: 0 <= i < j < |sorted| ==> sorted[i].row != sorted[j].row
  {
    assert |multiset(sorted)| == |multiset(opts)|;
    assert opts[..|opts|] == opts;
    RowsOnce(opts, |opts|);
    forall i | 0 <= i < |sorted|
      ensures sorted[i] in opts
    {
      assert sorted[i] in multiset(sorted);
    }
    forall i, j | 0 <= i < j < |sorted|
      ensures sorted[i].row != sorted[j].row
    {
      if sorted[i] == sorted[j] {
        OccursTwice(sorted, i, j);
      }
    }
  }

  lemma PermutationHasAll(opts: seq<Scored>, sorted: seq<Scored>, r: nat) returns (k: nat)
    requires multiset(sorted) == multiset(opts) && r < |opts|
    ensures k < |sorted| && sorted[k] == opts[r]
  {
    assert opts[r] in multiset(sorted);
    k :| 0 <= k < |sorted| && sorted[k] == opts[r];
  }

  // Any descending permutation of the scored rows, cut at CUTOFF, is an n-best list.
  lemma CutIsNBest<S>(opts: seq<Scored>, sorted: seq<Scored>, model: Model<S>, lattice: Lattice, cutoff: int,
                      morphProbs: bool)
    requires |opts| == |Expand(lattice)|
    requires forall k :: 0 <= k < |opts| ==> opts[k] == Scored(Score(model, Expand(lattice)[k], morphProbs), k)
    requires Descending(sorted) && multiset(sorted) == multiset(opts)
    ensures |sorted| == |opts|
    ensures IsNBest(sorted[..Printed(cutoff, |sorted|)], model, lattice, cutoff, morphProbs)
  {
    hide Score, Expand;
    PermutationIsOnce(opts, sorted);
    var n := Printed(cutoff, |sorted|);
    var list := sorted[..n];
    forall r: nat, i | r < |opts| && (forall k :: 0 <= k < |list| ==> list[k].row != r) && 0 <= i < |list|
      ensures opts[r].score <= list[i].score
    {
      var k := PermutationHasAll(opts, sorted, r);
      assert k >= n;
    }
  }

  // No combination of alternatives left unprinted scores higher than a printed one, and every
  // printed score is the score of a combination.
  lemma PrintedPathsAreBest<S>(list: seq<Scored>, model: Model<S>, lattice: Lattice, cutoff: int, morphProbs: bool,
                               path: seq<nat>, i: nat) returns (printed: seq<nat>)
    requires IsNBest(list, model, lattice, cutoff, morphProbs)
    requires ValidPath(lattice, path) && i < |list|
    ensures ValidPath(lattice, printed) && Position(lattice, printed) == list[i].row
    ensures list[i].score == Score(model, Pick(lattice, printed), morphProbs)
    ensures (exists k :: 0 <= k < |list| && list[k].row == Position(lattice, path))
            || Score(model, Pick(lattice, path), morphProbs) <= Score(model, Pick(lattice, printed), morphProbs)
  {
    hide Score, Expand;
    ExpandLength(lattice);
    PathIsRow(lattice, path);
    RowIsPath(lattice, list[i].row);
    printed := PathAt(lattice, list[i].row);
    PathIsRow(lattice, printed);
  }
}
