// Searching in strings, as find does it; |s| stands for npos. Putting strings together.
module Strings {

  // The first place of c at or behind from.
  function Find(s: string, c: char, from: nat): (r: nat)
    requires from <= |s|
    ensures from <= r <= |s| && c !in s[from..r] && (r < |s| ==> s[r] == c)
    decreases |s| - from
  {
    if from == |s| || s[from] == c then from
    else
      var r := Find(s, c, from + 1);
      assert s[from..r] == [s[from]] + s[from + 1..r];
      r
  }

  // The first place of a part at or behind from.
  function FindText(s: string, part: string, from: nat): (r: nat)
    requires from <= |s|
    ensures from <= r <= |s| && (r < |s| ==> part <= s[r..])
    ensures forall i :: from <= i < r ==> !(part <= s[i..])
    decreases |s| - from
  {
    if from == |s| || part <= s[from..] then from else FindText(s, part, from + 1)
  }

  predicate Contains(s: string, part: string)
  {
    FindText(s, part, 0) < |s|
  }

  ghost predicate Occurs(s: string, part: string)
  {
    exists before, behind :: s == before + part + behind
  }

  lemma ContainsIff(s: string, part: string)
    requires part != ""
    ensures Contains(s, part) <==> Occurs(s, part)
  {
    hide FindText;
    var r := FindText(s, part, 0);
    if r < |s| {
      OccursAt(s, part, r);
    }
    if Occurs(s, part) {
      var before, behind :| s == before + part + behind;
      hide Occurs;
      PartAt(before, part, behind);
    }
  }

  lemma OccursAt(s: string, part: string, r: nat)
    requires r < |s| && part <= s[r..]
    ensures Occurs(s, part)
  {
    var behind := s[r..][|part|..];
    assert s == s[..r] + part + behind;
  }

  lemma PartAt(before: string, part: string, behind: string)
    ensures part <= (before + part + behind)[|before|..]
  {
    assert (before + part + behind)[|before|..] == part + behind;
  }

  lemma FindBehind(s: string, rest: string, c: char)
    requires c !in s
    ensures Find(s + rest, c, 0) == |s| + Find(rest, c, 0)
  {
    var k := Find(rest, c, 0);
    assert forall i :: 0 <= i < k ==> rest[i] == rest[0..k][i];
    FindIs(s + rest, c, 0, |s| + k);
  }

  lemma {:induction false} FindIs(s: string, c: char, from: nat, r: nat)
    requires from <= r <= |s| && (r < |s| ==> s[r] == c)
    requires forall i :: from <= i < r ==> s[i] != c
    ensures Find(s, c, from) == r
    decreases r - from
  {
    if from == r {
    } else {
      FindIs(s, c, from + 1, r);
    }
  }

  lemma {:induction false} FindTextIs(s: string, part: string, from: nat, r: nat)
    requires from <= r <= |s| && (r < |s| ==> part <= s[r..])
    requires forall i :: from <= i < r ==> !(part <= s[i..])
    ensures FindText(s, part, from) == r
    decreases r - from
  {
    if from == r {
    } else {
      FindTextIs(s, part, from + 1, r);
    }
  }

  function Concat(parts: seq<string>): string
  {
    if parts == [] then "" else parts[0] + Concat(parts[1..])
  }

  lemma {:induction false} ConcatSnoc(parts: seq<string>, last: string)
    ensures Concat(parts + [last]) == Concat(parts) + last
  {
    if parts == [] {
      assert [] + [last] == [last] && [last][1..] == [];
    } else {
      assert (parts + [last])[1..] == parts[1..] + [last];
      ConcatSnoc(parts[1..], last);
    }
  }
}
