// PossibleHyphens.java: a counting pass and a filling pass over the lower-cased word, and hyphens
// inserted from the last position to the first.
module Hyphens {

  import opened Options
  import opened Tokens

  // Hyphenator.is_vowel and is_consonant.
  datatype Letters = Letters(vowel: char -> bool, consonant: char -> bool)

  // The six cases tried in order; i stops two characters before the end.
  predicate Breaks(l: Letters, w: string, i: nat)
    requires i + 2 < |w|
  {
    || (w[i] == w[i + 1] && l.consonant(w[i]))
    || (w[i] != w[i + 1] && l.vowel(w[i]) && l.vowel(w[i + 1]))
    || (l.vowel(w[i]) && l.consonant(w[i + 1]) && l.vowel(w[i + 2]))
    || (i + 3 < |w| && l.vowel(w[i]) && w[i + 1] == 'n' && w[i + 2] == 'g' && l.vowel(w[i + 3]))
    || (w[i] == 'r' && l.consonant(w[i + 1]))
    || (w[i] == 't' && w[i + 1] == 's')
  }

  // The break positions below n.
  function Positions(l: Letters, w: string, n: nat): (r: seq<nat>)
    requires n == 0 || n + 2 <= |w|
    ensures forall k :: 0 <= k < |r| ==> r[k] < n
  {
    if n == 0 then []
    else Positions(l, w, n - 1) + (if Breaks(l, w, n - 1) then [n - 1] else [])
  }

  function Last(w: string): nat
  {
    if |w| < 2 then 0 else |w| - 2
  }

  lemma {:induction false} PositionsAreExact(l: Letters, w: string, n: nat)
    requires n == 0 || n + 2 <= |w|
    ensures var ps := Positions(l, w, n);
      && Increasing(ps)
      && forall i: nat :: i in ps <==> i < n && Breaks(l, w, i)
  {
    hide Breaks;
    if n == 0 {
    } else {
      PositionsAreExact(l, w, n - 1);
      var was, ps := Positions(l, w, n - 1), Positions(l, w, n);
      assert ps == was || ps == was + [n - 1];
    }
  }

  ghost predicate Increasing(ps: seq<nat>)
  {
    forall j, k :: 0 <= j < k < |ps| ==> ps[j] < ps[k]
  }

  // The array is as long as the first pass counted and the second pass fills all of it.
  method GetHyphenationPositions(l: Letters, lcword: string) returns (ps: array<nat>)
    ensures fresh(ps) && ps[..] == Positions(l, lcword, Last(lcword))
  {
    hide Breaks;
    var num := 0;
    for i := 0 to Last(lcword)
      invariant num == |Positions(l, lcword, i)|
    {
      if Breaks(l, lcword, i) {
        num := num + 1;
      }
    }
    ps := new nat[num];
    num := 0;
    for i := 0 to Last(lcword)
      invariant fresh(ps) && ps.Length == |Positions(l, lcword, Last(lcword))|
      invariant num == |Positions(l, lcword, i)| && num <= ps.Length
      invariant ps[..num] == Positions(l, lcword, i)
    {
      PositionsGrow(l, lcword, i + 1, Last(lcword));
      if Breaks(l, lcword, i) {
        ps[num] := i;
        num := num + 1;
        assert ps[..num] == ps[..num - 1] + [i];
      }
    }
  }

  lemma {:induction false} PositionsGrow(l: Letters, w: string, m: nat, n: nat)
    requires m <= n && (n == 0 || n + 2 <= |w|)
    ensures |Positions(l, w, m)| <= |Positions(l, w, n)|
    decreases n
  {
    if m < n {
      PositionsGrow(l, w, m, n - 1);
    }
  }

  lemma PositionsIncrease(l: Letters, w: string)
    ensures Increasing(Positions(l, w, Last(w)))
  {
    PositionsAreExact(l, w, Last(w));
  }

  // ---- The hyphenated word. ----

  // A hyphen after each position that breaks.
  function Hyphenated(word: string, ps: seq<nat>, n: nat): string
    requires n <= |word|
  {
    if n == 0 then ""
    else Hyphenated(word, ps, n - 1) + [word[n - 1]] + (if n - 1 in ps then "=" else "")
  }

  lemma {:induction false} NoMoreHyphens(word: string, ps: seq<nat>, qs: seq<nat>, m: nat, n: nat)
    requires m <= n <= |word|
    requires forall i: nat :: i < m ==> (i in ps <==> i in qs)
    requires forall i: nat :: m <= i < n ==> i !in qs
    ensures Hyphenated(word, qs, n) == Hyphenated(word, ps, m) + word[m..n]
    decreases n
  {
    if n > m {
      NoMoreHyphens(word, ps, qs, m, n - 1);
      assert word[m..n] == word[m..n - 1] + [word[n - 1]];
    } else if n > 0 {
      NoMoreHyphens(word, ps, qs, m - 1, n - 1);
      assert word[m - 1..n - 1] == "" && word[m..n] == "";
    }
  }

  // StringBuilder.insert.
  function Insert(s: string, i: nat, c: char): string
    requires i <= |s|
  {
    s[..i] + [c] + s[i..]
  }

  // Lower-casing may change the length of a word; insert throws behind the end.
  predicate InWord(word: string, ps: seq<nat>)
  {
    ps != [] ==> ps[|ps| - 1] < |word|
  }

  // The insertions from the last position to the first: what is done equals the word with hyphens at the
  // positions from i on. None stands for the exception of insert.
  method GetPossibleHyphens(l: Letters, word: string, lcword: string) returns (r: Option<string>)
    ensures var ps := Positions(l, lcword, Last(lcword));
      r == if InWord(word, ps) then Some(Hyphenated(word, ps, |word|)) else None
  {
    var ps := GetHyphenationPositions(l, lcword);
    ghost var all := ps[..];
    hide Positions, Breaks, Hyphenated, Increasing, Insert;
    PositionsIncrease(l, lcword);
    var sb := word;
    var i := ps.Length;
    NoHyphens(word);
    assert all[ps.Length..] == [];
    while i > 0
      invariant 0 <= i <= ps.Length && ps[..] == all
      invariant sb == Hyphenated(word, all[i..], |word|)
      invariant i < ps.Length ==> InWord(word, all)
    {
      if InWord(word, all) {
        OneMoreHyphen(word, all, i - 1);
      }
      if ps[i - 1] + 1 > |sb| {
        return None;
      }
      sb := Insert(sb, ps[i - 1] + 1, '=');
      i := i - 1;
    }
    assert all[0..] == all;
    return Some(sb);
  }

  lemma NoHyphens(word: string)
    ensures Hyphenated(word, [], |word|) == word
  {
    NoMoreHyphens(word, [], [], 0, |word|);
  }

  lemma {:induction false} SplitAt(word: string, ps: seq<nat>, m: nat, n: nat) returns (tail: string)
    requires m <= n <= |word|
    ensures Hyphenated(word, ps, n) == Hyphenated(word, ps, m) + tail
    ensures forall qs: seq<nat> :: (forall i: nat :: m <= i < n ==> (i in ps <==> i in qs)) ==>
      Hyphenated(word, qs, n) == Hyphenated(word, qs, m) + tail
    decreases n
  {
    if m == n {
      tail := "";
    } else {
      var shorter := SplitAt(word, ps, m, n - 1);
      tail := shorter + [word[n - 1]] + (if n - 1 in ps then "=" else "");
    }
  }

  lemma OneMoreHyphen(word: string, ps: seq<nat>, k: nat)
    requires Increasing(ps) && k < |ps| && ps[|ps| - 1] < |word|
    ensures ps[k] < |word| && |Hyphenated(word, ps[k + 1..], |word|)| > ps[k]
    ensures Hyphenated(word, ps[k..], |word|) == Insert(Hyphenated(word, ps[k + 1..], |word|), ps[k] + 1, '=')
  {
    var p, old_, new_ := ps[k], ps[k + 1..], ps[k..];
    assert new_ == [p] + old_;
    var tail := SplitAt(word, old_, p + 1, |word|);
    assert forall i: nat :: i in new_ <==> i == p || i in old_;
    HyphensUpTo(word, old_, new_, p);
    hide Hyphenated;
    assert word[..p + 1] + "=" + tail == Insert(word[..p + 1] + tail, p + 1, '=');
  }

  lemma HyphensUpTo(word: string, older: seq<nat>, newer: seq<nat>, p: nat)
    requires p < |word| && p in newer
    requires forall i: nat :: i <= p ==> i !in older
    requires forall i: nat :: i < p ==> i !in newer
    ensures Hyphenated(word, older, p + 1) == word[..p + 1]
    ensures Hyphenated(word, newer, p + 1) == word[..p + 1] + "="
  {
    NoMoreHyphens(word, [], older, 0, p + 1);
    NoMoreHyphens(word, [], newer, 0, p);
  }

  // ---- Deleting the hyphens. ----

  function Erased(s: string, i: nat): string
  {
    if i < |s| then s[..i] + s[i + 1..] else s
  }

  // The insertions undone, the last one first.
  function Undone(s: string, ps: seq<nat>): string
    decreases |ps|
  {
    if ps == [] then s else Undone(Erased(s, ps[0] + 1), ps[1..])
  }

  lemma ErasedInsert(s: string, i: nat, c: char)
    requires i <= |s|
    ensures Erased(Insert(s, i, c), i) == s
  {
  }

  // Deleting what was inserted gives back any word, whatever is in it.
  lemma {:induction false} UndoingRecovers(word: string, ps: seq<nat>)
    requires Increasing(ps) && InWord(word, ps)
    ensures Undone(Hyphenated(word, ps, |word|), ps) == word
    decreases |ps|
  {
    hide Hyphenated, Insert, Erased;
    if ps == [] {
      NoHyphens(word);
    } else {
      OneMoreHyphen(word, ps, 0);
      assert ps[0..] == ps;
      ErasedInsert(Hyphenated(word, ps[1..], |word|), ps[0] + 1, '=');
      UndoingRecovers(word, ps[1..]);
    }
  }

  lemma WithoutSnoc(s: string, d: char, c: char)
    ensures Without(s + [d], [c]) == Without(s, [c]) + (if d == c then "" else [d])
  {
    WithoutAppend(s, [d], [c]);
    assert [d][1..] == "" && Without([d], [c]) == (if d == c then "" else [d]) + Without([d][1..], [c]);
  }

  lemma {:induction false} WithoutLeavesNone(s: string, c: char)
    ensures c !in Without(s, [c])
  {
    if s == "" {
    } else {
      WithoutLeavesNone(s[1..], c);
    }
  }

  lemma {:induction false} PlainWordRecovered(word: string, ps: seq<nat>, n: nat)
    requires n <= |word| && '=' !in word
    ensures Without(Hyphenated(word, ps, n), "=") == word[..n]
  {
    if n == 0 {
    } else {
      PlainWordRecovered(word, ps, n - 1);
      var s := Hyphenated(word, ps, n - 1);
      WithoutSnoc(s, word[n - 1], '=');
      WithoutSnoc(s + [word[n - 1]], '=', '=');
      assert s + [word[n - 1]] + "" == s + [word[n - 1]];
    }
  }

  // Deleting every '=' gives the word back exactly when it has none of its own.
  lemma DeletingHyphensRecovers(word: string, ps: seq<nat>)
    ensures Without(Hyphenated(word, ps, |word|), "=") == word <==> '=' !in word
  {
    hide Hyphenated;
    if '=' !in word {
      PlainWordRecovered(word, ps, |word|);
      assert word[..|word|] == word;
    }
    WithoutLeavesNone(Hyphenated(word, ps, |word|), '=');
  }

  // ---- A word for which insert throws. ----

  // Java lower-cases U+0130 to i and U+0307, so three of them and tsa become nine characters with ts at 6.
  lemma LongerInLowerCase(l: Letters)
    ensures var lcword := "i\U{0307}i\U{0307}i\U{0307}tsa";
      !InWord("\U{0130}\U{0130}\U{0130}tsa", Positions(l, lcword, Last(lcword)))
  {
    hide Breaks;
    var lcword := "i\U{0307}i\U{0307}i\U{0307}tsa";
    assert Breaks(l, lcword, 6) by {
      BreaksAtTs(l, lcword, 6);
    }
    PositionsAreExact(l, lcword, 7);
    assert 6 in Positions(l, lcword, 7);
  }

  lemma BreaksAtTs(l: Letters, w: string, i: nat)
    requires i + 2 < |w| && w[i] == 't' && w[i + 1] == 's'
    ensures Breaks(l, w, i)
  {
  }

  // ---- Where a word breaks. ----

  // Behind the first of two equal consonants, between two different vowels, behind a vowel in front of a consonant
  // and a vowel or of ng and a vowel, behind an r in front of a consonant, and inside ts; never at the last two
  // characters.
  lemma BreaksIff(l: Letters, u: string, a: char, b: char, c: char, v: string)
    ensures Breaks(l, u + [a, b, c] + v, |u|) <==>
      || (a == b && l.consonant(a))
      || (a != b && l.vowel(a) && l.vowel(b))
      || (l.vowel(a) && l.consonant(b) && l.vowel(c))
      || (l.vowel(a) && [b, c] == "ng" && v != "" && l.vowel(v[0]))
      || (a == 'r' && l.consonant(b))
      || [a, b] == "ts"
  {
    var w, i := u + [a, b, c] + v, |u|;
    assert w[i] == a && w[i + 1] == b && w[i + 2] == c && (v != "" ==> w[i + 3] == v[0]);
    assert [b, c] == "ng" <==> b == 'n' && c == 'g';
    assert [a, b] == "ts" <==> a == 't' && b == 's';
  }

  lemma AllBreaksAreFound(l: Letters, w: string, i: nat)
    ensures i in Positions(l, w, Last(w)) <==> i + 2 < |w| && Breaks(l, w, i)
  {
    PositionsAreExact(l, w, Last(w));
  }
}
