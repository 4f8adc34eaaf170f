// The tokens a word is scored by, and the score of a row (outputSentences.cpp).
module ScoredWords {
  import opened Strings
  import opened Expansions
  import opened Scores
  import opened SentenceReader

  const PUNC := "-PUNC-"
  const NP := "_NP:"

  predicate StartsWithSlash(w: string)
  {
    w != "" && w[0] == '/'
  }

  // Neither an alternative nor punctuation.
  ghost predicate IsOrdinary(w: string)
  {
    !StartsWithSlash(w) && !Occurs(w, PUNC)
  }

  lemma SurfaceIs(w: string)
    ensures IsOrdinary(w) ==> Surface(w) == w
    ensures !StartsWithSlash(w) ==> Surface("/" + w) == Surface(w)
  {
    ContainsIff(w, PUNC);
    assert ("/" + w)[1..] == w;
  }

  // The slash of an alternative is no part of the word.
  lemma AlternativeTokens(w: string, morphProbs: bool)
    requires !StartsWithSlash(w)
    ensures WordTokens("/" + w, morphProbs) == WordTokens(w, morphProbs)
  {
    hide Surface;
    SurfaceIs(w);
  }

  lemma OrdinaryTokens(w: string)
    requires IsOrdinary(w)
    ensures WordTokens(w, false) == [w]
  {
    SurfaceIs(w);
  }

  lemma PuncSurface(c: char, mark: string)
    ensures c != '/' ==> Surface([c] + PUNC + mark) == [c]
    ensures c == '/' ==> Surface([c] + PUNC + mark) == "-"
  {
    var w := [c] + PUNC + mark;
    if c == '/' {
      assert w[1..] == "" + PUNC + mark;
      ContainsIff(w[1..], PUNC);
      assert w[1..][..1] == "-";
    } else {
      ContainsIff(w, PUNC);
      assert Occurs(w, PUNC);
      assert w[..1] == [c];
    }
  }

  // Of a punctuation mark its first character is scored.
  lemma PunctuationTokens(c: char, mark: string, morphProbs: bool)
    requires c != '/' && c != ':'
    ensures WordTokens([c] + PUNC + mark, morphProbs) == [[c]]
  {
    hide Surface;
    PuncSurface(c, mark);
    TooShort([c], NP);
    FindIs([c], ':', 0, 1);
  }

  lemma TooShort(s: string, part: string)
    requires |s| < |part|
    ensures !Contains(s, part)
  {
    ContainsIff(s, part);
  }

  // A slash as a punctuation mark is taken for an alternative of the word before it, and scored as a hyphen.
  lemma SlashIsMistaken(words: seq<string>, mark: string)
    requires words != []
    ensures var w, columns := "/" + PUNC + mark, Group(words);
      && columns != [] && Group(words + [w]) == columns[|columns| - 1 := columns[|columns| - 1] + [w]]
      && WordTokens(w, false) == ["-"]
  {
    hide Surface, Group;
    PuncSurface('/', mark);
    assert "/" + PUNC + mark == ['/'] + PUNC + mark;
    GroupGrows(words, "/" + PUNC + mark);
  }

  // ---- Lemmas and morphemes. ----

  ghost predicate IsMorph(m: string)
  {
    |m| > 1 && m[0] == '+' && '+' !in m[1..] && ':' !in m
  }

  ghost predicate AreMorphs(ms: seq<string>)
  {
    forall i :: 0 <= i < |ms| ==> IsMorph(ms[i])
  }

  lemma {:induction false} PlusFreeEndIs(w: string, i: nat, r: nat)
    requires i <= r <= |w| && (r < |w| ==> w[r] == '+') && forall k :: i <= k < r ==> w[k] != '+'
    ensures PlusFreeEnd(w, i) == r
    decreases r - i
  {
    if i < r {
      PlusFreeEndIs(w, i + 1, r);
    }
  }

  function Pluses(n: nat): string
  {
    if n == 0 then "" else "+" + Pluses(n - 1)
  }

  // Morphemes, each with any number of plus signs in front.
  function Spelled(extra: seq<nat>, ms: seq<string>): string
    requires |extra| == |ms|
  {
    if ms == [] then "" else Pluses(extra[0]) + ms[0] + Spelled(extra[1..], ms[1..])
  }

  lemma MorphStep(before: string, m: string, later: string)
    requires IsMorph(m) && (later == "" || later[0] == '+')
    ensures Morphs(before + (m + later), |before|) == [m] + Morphs(before + m + later, |before| + |m|)
  {
    var w, n, r := before + (m + later), |before|, |before| + |m|;
    assert w == before + m + later && w[n..r] == m && w[n] == '+';
    assert r < |w| ==> w[r] == later[0];
    assert forall k :: n < k < r ==> w[k] == m[1..][k - n - 1];
    PlusFreeEndIs(w, n + 1, r);
  }

  lemma PlusStep(before: string, later: string)
    requires later == "" || later[0] == '+'
    ensures Morphs(before + ("+" + later), |before|) == Morphs(before + "+" + later, |before| + 1)
  {
    var w, n := before + ("+" + later), |before|;
    assert w == before + "+" + later && w[n] == '+';
    assert n + 1 < |w| ==> w[n + 1] == later[0];
    PlusFreeEndIs(w, n + 1, n + 1);
  }

  lemma {:induction false} PlusesAre(n: nat)
    ensures |Pluses(n)| == n && (n > 0 ==> Pluses(n)[0] == '+') && ':' !in Pluses(n)
  {
    if n == 0 {
    } else {
      PlusesAre(n - 1);
    }
  }

  // Plus signs with nothing between them are no morphemes.
  lemma {:induction false} PlusesSkipped(before: string, n: nat, later: string)
    requires later == "" || later[0] == '+'
    ensures |Pluses(n)| == n
    ensures Morphs(before + (Pluses(n) + later), |before|) == Morphs(before + Pluses(n) + later, |before| + n)
    decreases n
  {
    hide Morphs, Pluses;
    PlusesAre(n);
    if n == 0 {
      assert Pluses(n) + later == later && before + Pluses(n) == before;
    } else {
      var rest := Pluses(n - 1) + later;
      PlusesSkipped(before + "+", n - 1, later);
      PlusesAre(n - 1);
      OneMorePlus(n - 1);
      PlusStep(before, rest);
      assert Pluses(n) + later == "+" + rest;
      assert before + "+" + rest == before + "+" + Pluses(n - 1) + later == before + Pluses(n) + later;
    }
  }

  lemma OneMorePlus(n: nat)
    ensures Pluses(n + 1) == "+" + Pluses(n)
  {
  }

  lemma {:induction false} SpelledIs(extra: seq<nat>, ms: seq<string>, end: nat)
    requires |extra| == |ms| && AreMorphs(ms)
    ensures ':' !in Spelled(extra, ms) + Pluses(end)
    ensures var s := Spelled(extra, ms) + Pluses(end); s == "" || s[0] == '+'
  {
    PlusesAre(end);
    if ms == [] {
      assert Spelled(extra, ms) + Pluses(end) == Pluses(end);
    } else {
      assert IsMorph(ms[0]);
      PlusesAre(extra[0]);
      SpelledIs(extra[1..], ms[1..], end);
      var later := Spelled(extra[1..], ms[1..]) + Pluses(end);
      assert Spelled(extra, ms) + Pluses(end) == Pluses(extra[0]) + ms[0] + later;
    }
  }

  lemma {:induction false} MorphsFrom(before: string, extra: seq<nat>, ms: seq<string>, end: nat)
    requires |extra| == |ms| && AreMorphs(ms)
    ensures Morphs(before + (Spelled(extra, ms) + Pluses(end)), |before|) == ms
    decreases |ms|
  {
    hide IsMorph, Morphs, Pluses;
    if ms == [] {
      PlusesSkipped(before, end, "");
      assert before + (Pluses(end) + "") == before + (Spelled(extra, ms) + Pluses(end));
      assert before + Pluses(end) + "" == before + Pluses(end);
      NoMorphsLeft(before + Pluses(end));
    } else {
      var first, later := Pluses(extra[0]), Spelled(extra[1..], ms[1..]) + Pluses(end);
      SpelledIs(extra[1..], ms[1..], end);
      assert IsMorph(ms[0]);
      MorphBegins(ms[0], later);
      PlusesSkipped(before, extra[0], ms[0] + later);
      MorphStep(before + first, ms[0], later);
      MorphsFrom(before + first + ms[0], extra[1..], ms[1..], end);
      assert before + (Spelled(extra, ms) + Pluses(end)) == before + (first + (ms[0] + later));
      assert ms == [ms[0]] + ms[1..];
    }
  }

  lemma MorphBegins(m: string, later: string)
    requires IsMorph(m)
    ensures m + later != "" && (m + later)[0] == '+'
  {
  }

  lemma NoMorphsLeft(w: string)
    ensures Morphs(w, |w|) == []
  {
  }

  lemma {:induction false} StartSkipped(start: string, i: nat, rest: string)
    requires '+' !in start && i <= |start|
    ensures Morphs(start + rest, i) == Morphs(start + rest, |start|)
    decreases |start| - i
  {
    if i < |start| {
      assert (start + rest)[i] == start[i];
      StartSkipped(start, i + 1, rest);
    }
  }

  // Nothing, or a second colon and what follows it.
  ghost predicate IsTail(tail: string)
  {
    tail == "" || tail[0] == ':'
  }

  lemma SecondPart(lem: string, part: string, tail: string)
    requires ':' !in lem && ':' !in part && IsTail(tail)
    ensures var strs := SplitAtColons(lem + ":" + (part + tail));
      |strs| > 1 && strs[0] == lem && strs[1] == part
  {
    var rest := part + tail;
    var w := lem + ":" + rest;
    FindIs(w, ':', 0, |lem|);
    assert w[..|lem|] == lem && w[|lem| + 1..] == rest;
    FindIs(rest, ':', 0, |part|);
    assert rest[..|part|] == part && (tail == "" ==> rest == part);
  }

  // Morphemes with what is no part of one: text without a plus sign in front of the first, and plus signs with
  // nothing behind them.
  ghost predicate HasMorphs(part: string, ms: seq<string>)
  {
    AreMorphs(ms) && exists start, extra, end :: IsSpelling(part, ms, start, extra, end)
  }

  ghost predicate IsSpelling(part: string, ms: seq<string>, start: string, extra: seq<nat>, end: nat)
  {
    && |extra| == |ms| && '+' !in start && ':' !in start
    && part == start + (Spelled(extra, ms) + Pluses(end))
  }

  lemma MorphsAre(part: string, ms: seq<string>)
    requires HasMorphs(part, ms)
    ensures ':' !in part && Morphs(part, 0) == ms
  {
    hide Morphs, IsMorph, Spelled, Pluses;
    var start, extra, end :| IsSpelling(part, ms, start, extra, end);
    SpelledIs(extra, ms, end);
    StartSkipped(start, 0, Spelled(extra, ms) + Pluses(end));
    MorphsFrom(start, extra, ms, end);
  }

  lemma LemmaAndMorphs(lem: string, part: string, ms: seq<string>, tail: string)
    requires ':' !in lem && HasMorphs(part, ms) && IsTail(tail)
    ensures var strs := SplitAtColons(lem + ":" + (part + tail));
      |strs| > 1 && strs[0] == lem && Morphs(strs[1], 0) == ms
  {
    hide Morphs, SplitAtColons, HasMorphs;
    MorphsAre(part, ms);
    SecondPart(lem, part, tail);
  }

  // A word with its morphemes is scored by its lemma and each of them; a second colon and what follows is not
  // looked at.
  lemma MorphTokens(lem: string, part: string, ms: seq<string>, tail: string)
    requires ':' !in lem && HasMorphs(part, ms) && IsTail(tail)
    requires var w := lem + ":" + (part + tail); IsOrdinary(w) && !Occurs(w, NP)
    ensures WordTokens(lem + ":" + (part + tail), true) == [lem] + ms
  {
    hide Surface, SplitAtColons, Morphs, HasMorphs;
    var w := lem + ":" + (part + tail);
    SurfaceIs(w);
    ContainsIff(w, NP);
    LemmaAndMorphs(lem, part, ms, tail);
  }

  lemma NoColonNoName(w: string)
    requires Occurs(w, NP)
    ensures ':' in w
  {
    var before, behind :| w == before + NP + behind;
    assert w[|before| + 3] == ':';
  }

  // Without a colon the whole word is its lemma.
  lemma NoMorphTokens(w: string)
    requires ':' !in w && IsOrdinary(w)
    ensures WordTokens(w, true) == [w]
  {
    hide Surface, FindText;
    SurfaceIs(w);
    ContainsIff(w, NP);
    if Occurs(w, NP) {
      NoColonNoName(w);
    }
    FindIs(w, ':', 0, |w|);
  }

  lemma {:induction false} ProperNameIs(w: string, k: nat, i: nat)
    requires 0 < k <= i <= |w| && NP <= w[k..] && forall j :: k < j <= i ==> !(NP <= w[j..])
    ensures ProperName(w, i) == "NP:" + w[k + 4..]
    decreases i
  {
    if k < i {
      ProperNameIs(w, k, i - 1);
    }
  }

  // A proper name is scored as NP, and by its morphemes.
  lemma ProperNameTokens(name: string, part: string, ms: seq<string>)
    requires name != "" && HasMorphs(part, ms) && IsOrdinary(name + NP + part)
    ensures WordTokens(name + NP + part, true) == ["NP"] + ms
  {
    hide Surface, SplitAtColons, Morphs, FindText, HasMorphs;
    var w, k := name + NP + part, |name|;
    SurfaceIs(w);
    ContainsIff(w, NP);
    assert w[k..] == NP + part && w[k + 4..] == part;
    MorphsAre(part, ms);
    forall j | k < j <= |w|
      ensures !(NP <= w[j..])
    {
      OnlyColon(name, part, j);
    }
    ProperNameIs(w, k, |w|);
    LemmaAndMorphs("NP", part, ms, "");
    assert "NP" + ":" + (part + "") == "NP:" + part;
  }

  lemma OnlyColon(name: string, part: string, j: nat)
    requires ':' !in part && |name| < j <= |name + NP + part|
    ensures !(NP <= (name + NP + part)[j..])
  {
    var w, n := name + NP + part, |name|;
    forall i | n + 4 <= i < |w|
      ensures w[i] != ':'
    {
      assert w[i] == part[i - (n + 4)];
    }
    assert j + 4 <= |w| ==> w[j..][3] == w[j + 3];
  }

  // ---- The score of a row. ----

  function Sum(terms: seq<real>): real
  {
    if terms == [] then 0.0 else terms[0] + Sum(terms[1..])
  }

  // The states of the model before each token and behind the last.
  ghost predicate AreStates<S>(model: Model<S>, tokens: seq<string>, states: seq<S>)
  {
    && |states| == |tokens| + 1 && states[0] == model.begin
    && forall i :: 0 <= i < |tokens| ==> states[i + 1] == model.next(states[i], tokens[i])
  }

  lemma {:induction false} FoldIsSum<S(!new)>(model: Model<S>, tokens: seq<string>, states: seq<S>)
    requires |states| == |tokens| + 1
    requires forall i :: 0 <= i < |tokens| ==> states[i + 1] == model.next(states[i], tokens[i])
    ensures Fold(model, states[0], tokens)
      == Sum(seq(|tokens|, i requires 0 <= i < |tokens| => model.prob(states[i], tokens[i])))
  {
    var terms := seq(|tokens|, i requires 0 <= i < |tokens| => model.prob(states[i], tokens[i]));
    if tokens == [] {
    } else {
      FoldIsSum(model, tokens[1..], states[1..]);
      assert terms[1..]
        == seq(|tokens[1..]|, i requires 0 <= i < |tokens[1..]| => model.prob(states[1..][i], tokens[1..][i]));
    }
  }

  // The score is the sum over the tokens and the end of sentence, each in the state the ones before have led to.
  lemma ScoreIsSum<S(!new)>(model: Model<S>, row: seq<string>, morphProbs: bool, states: seq<S>)
    requires var tokens := RowTokens(row, morphProbs) + [model.eos]; AreStates(model, tokens, states)
    ensures var tokens := RowTokens(row, morphProbs) + [model.eos];
      Score(model, row, morphProbs)
      == Sum(seq(|tokens|, i requires 0 <= i < |tokens| => model.prob(states[i], tokens[i])))
  {
    hide RowTokens, Fold;
    FoldIsSum(model, RowTokens(row, morphProbs) + [model.eos], states);
  }

  // A row of ordinary words is scored by those words.
  lemma {:induction false} OrdinaryRow(row: seq<string>)
    requires forall i :: 0 <= i < |row| ==> IsOrdinary(row[i])
    ensures RowTokens(row, false) == row
  {
    hide WordTokens, IsOrdinary;
    if row == [] {
    } else {
      OrdinaryTokens(row[0]);
      OrdinaryRow(row[1..]);
      assert row == [row[0]] + row[1..];
    }
  }
}
