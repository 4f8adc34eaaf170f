// The sentences of a word lattice: one word per column, enumerated in mixed-radix order with the
// first column as the most significant digit.
module Expansions {

  type Lattice = seq<seq<string>>

  // Number of paths through the lattice.
  function Count(lattice: Lattice): nat
  {
    if lattice == [] then 1 else |lattice[0]| * Count(lattice[1..])
  }

  lemma {:induction false} CountPositive(lattice: Lattice)
    requires forall c :: 0 <= c < |lattice| ==> lattice[c] != []
    ensures Count(lattice) > 0
  {
    if lattice == [] {
    } else {
      CountPositive(lattice[1..]);
      MultipleAtLeast(|lattice[0]|, Count(lattice[1..]));
    }
  }

  function Prefix(word: string, tails: seq<seq<string>>): seq<seq<string>>
  {
    seq(|tails|, i requires 0 <= i < |tails| => [word] + tails[i])
  }

  function PrefixAll(words: seq<string>, tails: seq<seq<string>>): seq<seq<string>>
  {
    if words == [] then [] else Prefix(words[0], tails) + PrefixAll(words[1..], tails)
  }

  function Expand(lattice: Lattice): seq<seq<string>>
  {
    if lattice == [] then [[]] else PrefixAll(lattice[0], Expand(lattice[1..]))
  }

  lemma {:induction false} PrefixAllLength(words: seq<string>, tails: seq<seq<string>>)
    ensures |PrefixAll(words, tails)| == |words| * |tails|
  {
    if words == [] {
    } else {
      PrefixAllLength(words[1..], tails);
      assert |words| * |tails| == |tails| + (|words| - 1) * |tails|;
    }
  }

  lemma {:induction false} PrefixAllSnoc(words: seq<string>, last: string, tails: seq<seq<string>>)
    ensures PrefixAll(words + [last], tails) == PrefixAll(words, tails) + Prefix(last, tails)
  {
    if words == [] {
      assert [last][1..] == [];
      assert PrefixAll([last], tails) == Prefix(last, tails) + PrefixAll([], tails);
    } else {
      assert (words + [last])[1..] == words[1..] + [last];
      PrefixAllSnoc(words[1..], last, tails);
    }
  }

  lemma {:induction false} ExpandLength(lattice: Lattice)
    ensures |Expand(lattice)| == Count(lattice)
  {
    if lattice == [] {
    } else {
      ExpandLength(lattice[1..]);
      PrefixAllLength(lattice[0], Expand(lattice[1..]));
    }
  }

  lemma {:induction false} PrefixAllAt(words: seq<string>, tails: seq<seq<string>>, i: nat, j: nat)
    requires i < |words| && j < |tails|
    ensures i * |tails| + j < |PrefixAll(words, tails)|
    ensures PrefixAll(words, tails)[i * |tails| + j] == [words[i]] + tails[j]
  {
    PrefixAllLength(words, tails);
    if i > 0 {
      PrefixAllAt(words[1..], tails, i - 1, j);
      assert i * |tails| + j == |tails| + ((i - 1) * |tails| + j);
    } else {
      assert i * |tails| == 0;
    }
  }

  // ---- Paths: one alternative index per column. ----

  predicate ValidPath(lattice: Lattice, path: seq<nat>)
  {
    |path| == |lattice| && forall i :: 0 <= i < |path| ==> path[i] < |lattice[i]|
  }

  function Pick(lattice: Lattice, path: seq<nat>): seq<string>
    requires ValidPath(lattice, path)
  {
    seq(|path|, i requires 0 <= i < |path| => lattice[i][path[i]])
  }

  // The mixed-radix value of a path.
  function Position(lattice: Lattice, path: seq<nat>): nat
    requires |path| == |lattice|
  {
    if lattice == [] then 0 else path[0] * Count(lattice[1..]) + Position(lattice[1..], path[1..])
  }

  // The first digit of a row number, and what is left of the number.
  function FirstDigit(size: nat, radix: nat, row: nat): (r: (nat, nat))
    requires row < size * radix
    ensures r.0 < size && r.1 < radix && row == r.0 * radix + r.1
  {
    PositiveRadix(size, radix);
    DigitBounds(size, radix, row);
    (row / radix, row % radix)
  }

  // The digits of a row number.
  function PathAt(lattice: Lattice, row: nat): (path: seq<nat>)
    requires row < Count(lattice)
    ensures |path| == |lattice|
  {
    if lattice == [] then []
    else
      var (digit, left) := FirstDigit(|lattice[0]|, Count(lattice[1..]), row);
      [digit] + PathAt(lattice[1..], left)
  }

  lemma DigitBounds(size: nat, radix: nat, row: nat)
    requires row < size * radix && 0 < radix
    ensures row / radix < size && row % radix < radix
    ensures row == (row / radix) * radix + row % radix
  {
    var q := row / radix;
    assert (size - q) * radix == size * radix - q * radix;
    PositiveFactor(size - q, radix);
  }

  lemma PositiveRadix(size: nat, radix: nat)
    requires size * radix > 0
    ensures radix > 0
  {
  }

  lemma PositiveFactor(a: int, b: nat)
    requires a * b > 0
    ensures a > 0
  {
  }

  // Row Position(path) is the sentence the path picks.
  lemma {:induction false} PathIsRow(lattice: Lattice, path: seq<nat>)
    requires ValidPath(lattice, path)
    ensures Position(lattice, path) < Count(lattice) == |Expand(lattice)|
    ensures Expand(lattice)[Position(lattice, path)] == Pick(lattice, path)
  {
    ExpandLength(lattice);
    if lattice == [] {
    } else {
      var tails := Expand(lattice[1..]);
      PathIsRow(lattice[1..], path[1..]);
      PrefixAllAt(lattice[0], tails, path[0], Position(lattice[1..], path[1..]));
    }
  }

  // Position and PathAt are inverse: every path is one row and every row is one path.
  lemma {:induction false} RowIsPath(lattice: Lattice, row: nat)
    requires row < Count(lattice)
    ensures ValidPath(lattice, PathAt(lattice, row)) && Position(lattice, PathAt(lattice, row)) == row
  {
    if lattice == [] {
    } else {
      hide FirstDigit;
      var (digit, left) := FirstDigit(|lattice[0]|, Count(lattice[1..]), row);
      RowIsPath(lattice[1..], left);
      var path := PathAt(lattice, row);
      assert path[1..] == PathAt(lattice[1..], left);
      assert forall i :: 1 <= i < |path| ==> path[i] == path[1..][i - 1] && lattice[i] == lattice[1..][i - 1];
    }
  }

  lemma {:induction false} PathsDoNotCollide(lattice: Lattice, p: seq<nat>, q: seq<nat>)
    requires ValidPath(lattice, p) && ValidPath(lattice, q)
    requires Position(lattice, p) == Position(lattice, q)
    ensures p == q
  {
    if lattice == [] {
    } else {
      PathIsRow(lattice[1..], p[1..]);
      PathIsRow(lattice[1..], q[1..]);
      var radix := Count(lattice[1..]);
      SameDigits(radix, p[0], Position(lattice[1..], p[1..]), q[0], Position(lattice[1..], q[1..]));
      PathsDoNotCollide(lattice[1..], p[1..], q[1..]);
      assert p == [p[0]] + p[1..] && q == [q[0]] + q[1..];
    }
  }

  lemma SameDigits(radix: nat, a: nat, x: nat, b: nat, y: nat)
    requires x < radix && y < radix && a * radix + x == b * radix + y
    ensures a == b && x == y
  {
    assert (a - b) * radix == a * radix - b * radix;
    SmallMultiple(a - b, radix);
  }

  lemma SmallMultiple(d: int, radix: nat)
    requires 0 < radix + d * radix && d * radix < radix
    ensures d == 0
  {
    if d > 0 {
      MultipleAtLeast(d, radix);
    } else if d < 0 {
      MultipleAtLeast(-d, radix);
    }
  }

  lemma MultipleAtLeast(d: int, radix: nat)
    requires d > 0
    ensures d * radix >= radix
  {
  }

  // ---- Columns with a single word contribute nothing to the enumeration. ----

  function Ambiguous(lattice: Lattice, from: nat): seq<nat>
    requires from <= |lattice|
    decreases |lattice| - from
  {
    if from == |lattice| then []
    else (if |lattice[from]| > 1 then [from] else []) + Ambiguous(lattice, from + 1)
  }

  lemma {:induction false} AmbiguousBounds(lattice: Lattice, from: nat)
    requires from <= |lattice|
    ensures forall c :: c in Ambiguous(lattice, from) <==> from <= c < |lattice| && |lattice[c]| > 1
    ensures forall k :: 0 <= k < |Ambiguous(lattice, from)| ==> from <= Ambiguous(lattice, from)[k] < |lattice|
    ensures |Ambiguous(lattice, from)| <= |lattice| - from
    ensures |Ambiguous(lattice, from)| == |lattice| - from ==>
      forall c :: from <= c < |lattice| ==> |lattice[c]| > 1
    decreases |lattice| - from
  {
    if from < |lattice| {
      AmbiguousBounds(lattice, from + 1);
    }
  }

  function Columns(lattice: Lattice, indexes: seq<nat>): Lattice
    requires forall k :: 0 <= k < |indexes| ==> indexes[k] < |lattice|
  {
    seq(|indexes|, i requires 0 <= i < |indexes| => lattice[indexes[i]])
  }

  // A full sentence from the words chosen for the ambiguous columns.
  function Merge(lattice: Lattice, from: nat, words: seq<string>): seq<string>
    requires from <= |lattice| && |words| == |Ambiguous(lattice, from)|
    requires forall c :: from <= c < |lattice| ==> lattice[c] != []
    decreases |lattice| - from
  {
    if from == |lattice| then []
    else if |lattice[from]| > 1 then [words[0]] + Merge(lattice, from + 1, words[1..])
    else [lattice[from][0]] + Merge(lattice, from + 1, words)
  }

  lemma {:induction false} ExpandedWidth(lattice: Lattice, row: nat)
    requires row < |Expand(lattice)|
    ensures |Expand(lattice)[row]| == |lattice|
  {
    ExpandLength(lattice);
    RowIsPath(lattice, row);
    PathIsRow(lattice, PathAt(lattice, row));
  }

  ghost predicate MergesTo(lattice: Lattice, from: nat, partial: seq<seq<string>>, full: seq<seq<string>>)
    requires from <= |lattice| && forall c :: from <= c < |lattice| ==> lattice[c] != []
  {
    && |full| == |partial|
    && forall r :: 0 <= r < |full| ==>
      |partial[r]| == |Ambiguous(lattice, from)| && full[r] == Merge(lattice, from, partial[r])
  }

  // Enumerating only the ambiguous columns and merging the others back in gives every sentence, in
  // the same order.
  lemma {:induction false} ExpandIsMerge(lattice: Lattice, from: nat, indexes: seq<nat>)
    requires from <= |lattice| && forall c :: from <= c < |lattice| ==> lattice[c] != []
    requires indexes == Ambiguous(lattice, from) && forall k :: 0 <= k < |indexes| ==> indexes[k] < |lattice|
    ensures MergesTo(lattice, from, Expand(Columns(lattice, indexes)), Expand(lattice[from..]))
    decreases |lattice| - from
  {
    if from < |lattice| {
      var words := lattice[from];
      assert lattice[from..][0] == words && lattice[from..][1..] == lattice[from + 1..];
      var tails := Expand(lattice[from + 1..]);
      if |words| > 1 {
        var rest := indexes[1..];
        ExpandIsMerge(lattice, from + 1, rest);
        assert Columns(lattice, indexes)[1..] == Columns(lattice, rest);
        MergeUnderWords(lattice, from, words, Expand(Columns(lattice, rest)), tails);
      } else {
        ExpandIsMerge(lattice, from + 1, indexes);
        assert words[1..] == [];
        assert Expand(lattice[from..]) == Prefix(words[0], tails) + PrefixAll(words[1..], tails);
      }
    }
  }

  lemma {:induction false} MergeUnderWords(lattice: Lattice, from: nat, words: seq<string>,
                                           partial: seq<seq<string>>, full: seq<seq<string>>)
    requires from < |lattice| && |lattice[from]| > 1
    requires forall c :: from <= c < |lattice| ==> lattice[c] != []
    requires MergesTo(lattice, from + 1, partial, full)
    ensures MergesTo(lattice, from, PrefixAll(words, partial), PrefixAll(words, full))
  {
    hide MergesTo, Prefix;
    if words == [] {
      NothingMerges(lattice, from);
    } else {
      MergeUnderWords(lattice, from, words[1..], partial, full);
      MergeUnderWord(lattice, from, words[0], partial, full);
      MergesJoin(lattice, from, Prefix(words[0], partial), Prefix(words[0], full),
                 PrefixAll(words[1..], partial), PrefixAll(words[1..], full));
    }
  }

  lemma NothingMerges(lattice: Lattice, from: nat)
    requires from <= |lattice| && forall c :: from <= c < |lattice| ==> lattice[c] != []
    ensures MergesTo(lattice, from, [], [])
  {
  }

  lemma MergeUnderWord(lattice: Lattice, from: nat, word: string, partial: seq<seq<string>>, full: seq<seq<string>>)
    requires from < |lattice| && |lattice[from]| > 1
    requires forall c :: from <= c < |lattice| ==> lattice[c] != []
    requires MergesTo(lattice, from + 1, partial, full)
    ensures MergesTo(lattice, from, Prefix(word, partial), Prefix(word, full))
  {
    forall r | 0 <= r < |full|
      ensures |Prefix(word, partial)[r]| == |Ambiguous(lattice, from)|
      ensures Prefix(word, full)[r] == Merge(lattice, from, Prefix(word, partial)[r])
    {
      assert Prefix(word, partial)[r][1..] == partial[r];
    }
  }

  lemma MergesJoin(lattice: Lattice, from: nat, p: seq<seq<string>>, f: seq<seq<string>>,
                   p': seq<seq<string>>, f': seq<seq<string>>)
    requires from <= |lattice| && forall c :: from <= c < |lattice| ==> lattice[c] != []
    requires MergesTo(lattice, from, p, f) && MergesTo(lattice, from, p', f')
    ensures MergesTo(lattice, from, p + p', f + f')
  {
    hide Ambiguous, Merge;
  }
}
