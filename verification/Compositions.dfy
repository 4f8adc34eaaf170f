// What a chain of transducers computes, stated without the chain: the composition of the nets'
// result lists, in depth-first order. A net is a function from a word to its finite list of
// results; foma itself is not part of this model.
module Compositions {

  type Net = string -> seq<string>

  // All results of feeding w through the nets one after the other.
  function Compose(nets: seq<Net>, w: string): seq<string>
    decreases |nets|, 0
  {
    if nets == [] then [w] else ComposeAll(nets[1..], nets[0](w))
  }

  function ComposeAll(nets: seq<Net>, ws: seq<string>): seq<string>
    decreases |nets|, |ws| + 1
  {
    if ws == [] then [] else Compose(nets, ws[0]) + ComposeAll(nets, ws[1..])
  }

  // The results of the first net that has any.
  function FirstAnswer(nets: seq<Net>, w: string): seq<string>
  {
    if nets == [] then [] else if nets[0](w) != [] then nets[0](w) else FirstAnswer(nets[1..], w)
  }

  // Number of times a depth-first search asks some net for a fresh word.
  function Visits(nets: seq<Net>, w: string): nat
    decreases |nets|, 0
  {
    if nets == [] then 1 else 1 + VisitsAll(nets[1..], nets[0](w))
  }

  function VisitsAll(nets: seq<Net>, ws: seq<string>): nat
    decreases |nets|, |ws| + 1
  {
    if ws == [] then 0 else Visits(nets, ws[0]) + VisitsAll(nets, ws[1..])
  }

  // The results still owed by the handles before position k, deepest handle first: pend[i] lists
  // what handle i has not returned yet.
  ghost function Owed(nets: seq<Net>, pend: seq<seq<string>>, k: nat): seq<string>
    requires k <= |nets| == |pend|
  {
    if k == 0 then [] else ComposeAll(nets[k..], pend[k - 1]) + Owed(nets, pend, k - 1)
  }

  ghost function OwedVisits(nets: seq<Net>, pend: seq<seq<string>>, k: nat): nat
    requires k <= |nets| == |pend|
  {
    if k == 0 then 0 else VisitsAll(nets[k..], pend[k - 1]) + OwedVisits(nets, pend, k - 1)
  }

  lemma {:induction false} OwedIgnoresDeeper(nets: seq<Net>, pend: seq<seq<string>>, pend': seq<seq<string>>, k: nat)
    requires k <= |nets| == |pend| == |pend'|
    requires pend[..k] == pend'[..k]
    ensures Owed(nets, pend, k) == Owed(nets, pend', k)
    ensures OwedVisits(nets, pend, k) == OwedVisits(nets, pend', k)
  {
    if k == 0 {
    } else {
      assert pend[k - 1] == pend[..k][k - 1] == pend'[k - 1];
      assert pend[..k - 1] == pend[..k][..k - 1] == pend'[..k - 1];
      OwedIgnoresDeeper(nets, pend, pend', k - 1);
    }
  }

  lemma {:induction false} ComposeAllNoNets(ws: seq<string>)
    ensures ComposeAll([], ws) == ws
  {
    if ws == [] {
    } else {
      ComposeAllNoNets(ws[1..]);
    }
  }

  // What the search has still to emit once it asks net k for w.
  ghost function Outstanding(nets: seq<Net>, pend: seq<seq<string>>, k: nat, w: string): seq<string>
    requires k <= |nets| == |pend|
  {
    Compose(nets[k..], w) + Owed(nets, pend, k)
  }

  ghost function Budget(nets: seq<Net>, pend: seq<seq<string>>, k: nat, w: string): nat
    requires k <= |nets| == |pend|
  {
    Visits(nets[k..], w) + OwedVisits(nets, pend, k)
  }

  ghost predicate Completes(done: seq<string>, left: seq<string>, total: seq<string>)
  {
    done + left == total
  }

  lemma CompletesShift(done: seq<string>, now: seq<string>, left: seq<string>, total: seq<string>)
    ensures Completes(done, now + left, total) <==> Completes(done + now, left, total)
  {
    assert done + (now + left) == (done + now) + left;
  }

  lemma CompletesAtEnd(done: seq<string>, total: seq<string>)
    ensures Completes(done, [], total) <==> done == total
  {
    assert done + [] == done;
  }

  // Before the search starts everything is outstanding at the first net.
  lemma SearchStarts(nets: seq<Net>, pend: seq<seq<string>>, w: string)
    requires |pend| == |nets|
    ensures Completes([], Outstanding(nets, pend, 0, w), Compose(nets, w))
  {
    assert nets[0..] == nets;
  }

  // Going one net deeper with the first answer leaves the outstanding results as they were.
  lemma SearchDescends(nets: seq<Net>, pend: seq<seq<string>>, k: nat, w: string)
    requires k < |nets| == |pend| && nets[k](w) != []
    ensures var answers := nets[k](w);
      var pend' := pend[k := answers[1..]];
      && Outstanding(nets, pend', k + 1, answers[0]) == Outstanding(nets, pend, k, w)
      && Budget(nets, pend', k + 1, answers[0]) < Budget(nets, pend, k, w)
  {
    var answers := nets[k](w);
    var pend' := pend[k := answers[1..]];
    OwedIgnoresDeeper(nets, pend, pend', k);
    assert nets[k..][0] == nets[k] && nets[k..][1..] == nets[k + 1..];
    var later := ComposeAll(nets[k + 1..], answers[1..]);
    assert Compose(nets[k..], w) == Compose(nets[k + 1..], answers[0]) + later;
    assert Owed(nets, pend', k + 1) == later + Owed(nets, pend, k);
    assert Visits(nets[k..], w) == 1 + Visits(nets[k + 1..], answers[0]) + VisitsAll(nets[k + 1..], answers[1..]);
    assert OwedVisits(nets, pend', k + 1) == VisitsAll(nets[k + 1..], answers[1..]) + OwedVisits(nets, pend, k);
  }

  // At the last net, and at a net without an answer, the answers come first and the rest is owed.
  lemma SearchTurns(nets: seq<Net>, pend: seq<seq<string>>, k: nat, w: string)
    requires k < |nets| == |pend|
    requires k == |nets| - 1 || nets[k](w) == []
    ensures Outstanding(nets, pend, k, w) == nets[k](w) + Owed(nets, pend, k)
    ensures OwedVisits(nets, pend, k) < Budget(nets, pend, k, w)
  {
    assert nets[k..][0] == nets[k] && nets[k..][1..] == nets[k + 1..];
    ComposeAllNoNets(nets[k](w));
    assert Compose(nets[k..], w) == nets[k](w);
  }

  // Taking the next answer of the deepest handle that has one.
  lemma SearchResumes(nets: seq<Net>, pend: seq<seq<string>>, k: nat)
    requires k < |nets| == |pend| && pend[k] != []
    ensures var pend' := pend[k := pend[k][1..]];
      && Outstanding(nets, pend', k + 1, pend[k][0]) == Owed(nets, pend, k + 1)
      && Budget(nets, pend', k + 1, pend[k][0]) == OwedVisits(nets, pend, k + 1)
  {
    hide Compose, ComposeAll, Visits, VisitsAll, Owed, OwedVisits;
    var pend', left, ws := pend[k := pend[k][1..]], nets[k + 1..], pend[k];
    OwedIgnoresDeeper(nets, pend, pend', k);
    OwedStep(nets, pend, k);
    OwedStep(nets, pend', k);
    AllStep(left, ws);
    assert Compose(left, ws[0]) + (ComposeAll(left, ws[1..]) + Owed(nets, pend, k))
      == Compose(left, ws[0]) + ComposeAll(left, ws[1..]) + Owed(nets, pend, k);
  }

  lemma OwedStep(nets: seq<Net>, pend: seq<seq<string>>, k: nat)
    requires k < |nets| == |pend|
    ensures Owed(nets, pend, k + 1) == ComposeAll(nets[k + 1..], pend[k]) + Owed(nets, pend, k)
    ensures OwedVisits(nets, pend, k + 1) == VisitsAll(nets[k + 1..], pend[k]) + OwedVisits(nets, pend, k)
  {
    hide ComposeAll, VisitsAll;
  }

  lemma AllStep(nets: seq<Net>, ws: seq<string>)
    requires ws != []
    ensures ComposeAll(nets, ws) == Compose(nets, ws[0]) + ComposeAll(nets, ws[1..])
    ensures VisitsAll(nets, ws) == Visits(nets, ws[0]) + VisitsAll(nets, ws[1..])
  {
    hide Compose, Visits;
  }

  // A handle with nothing left owes nothing.
  lemma SearchSkips(nets: seq<Net>, pend: seq<seq<string>>, k: nat)
    requires k < |nets| == |pend| && pend[k] == []
    ensures Owed(nets, pend, k + 1) == Owed(nets, pend, k)
    ensures OwedVisits(nets, pend, k + 1) == OwedVisits(nets, pend, k)
  {
    assert [] + Owed(nets, pend, k) == Owed(nets, pend, k);
  }

  lemma {:induction false} ComposeAllAppend(nets: seq<Net>, us: seq<string>, vs: seq<string>)
    ensures ComposeAll(nets, us + vs) == ComposeAll(nets, us) + ComposeAll(nets, vs)
  {
    if us == [] {
      assert us + vs == vs;
    } else {
      assert (us + vs)[1..] == us[1..] + vs;
      ComposeAllAppend(nets, us[1..], vs);
    }
  }

  // Composition is associative: running two chains in sequence is running their concatenation.
  lemma {:induction false} ComposeConcat(a: seq<Net>, b: seq<Net>, w: string)
    ensures Compose(a + b, w) == ComposeAll(b, Compose(a, w))
    decreases |a|, 0
  {
    if a == [] {
      assert a + b == b;
      assert Compose(a, w) == [w];
      assert ComposeAll(b, [w]) == Compose(b, w) + ComposeAll(b, [w][1..]);
    } else {
      assert (a + b)[1..] == a[1..] + b;
      ComposeAllConcat(a[1..], b, a[0](w));
    }
  }

  lemma {:induction false} ComposeAllConcat(a: seq<Net>, b: seq<Net>, ws: seq<string>)
    ensures ComposeAll(a + b, ws) == ComposeAll(b, ComposeAll(a, ws))
    decreases |a|, |ws| + 1
  {
    if ws == [] {
    } else {
      ComposeConcat(a, b, ws[0]);
      ComposeAllConcat(a, b, ws[1..]);
      ComposeAllAppend(b, Compose(a, ws[0]), ComposeAll(a, ws[1..]));
    }
  }

  // ---- Paths: one derivation picks, at each net, the index of one of its results. ----

  predicate ValidPath(nets: seq<Net>, w: string, path: seq<nat>)
    decreases |nets|
  {
    if nets == [] then path == []
    else path != [] && path[0] < |nets[0](w)| && ValidPath(nets[1..], nets[0](w)[path[0]], path[1..])
  }

  // The word a derivation ends in.
  function Follow(nets: seq<Net>, w: string, path: seq<nat>): string
    requires ValidPath(nets, w, path)
    decreases |nets|
  {
    if nets == [] then w else Follow(nets[1..], nets[0](w)[path[0]], path[1..])
  }

  // How many results a depth-first search emits before the one the path leads to.
  function Rank(nets: seq<Net>, w: string, path: seq<nat>): nat
    requires ValidPath(nets, w, path)
    decreases |nets|
  {
    if nets == [] then 0
    else
      |ComposeAll(nets[1..], nets[0](w)[..path[0]])| + Rank(nets[1..], nets[0](w)[path[0]], path[1..])
  }

  // Lexicographic order on paths.
  predicate Before(p: seq<nat>, q: seq<nat>)
  {
    p != [] && q != [] && (p[0] < q[0] || (p[0] == q[0] && Before(p[1..], q[1..])))
  }

  lemma ComposeAllAround(nets: seq<Net>, ws: seq<string>, i: nat)
    requires i < |ws|
    ensures ComposeAll(nets, ws) == ComposeAll(nets, ws[..i]) + Compose(nets, ws[i]) + ComposeAll(nets, ws[i + 1..])
  {
    assert ws == ws[..i] + ws[i..];
    ComposeAllAppend(nets, ws[..i], ws[i..]);
    assert ws[i..][0] == ws[i] && ws[i..][1..] == ws[i + 1..];
  }

  // Every derivation is emitted, at the place its rank says.
  lemma {:induction false} EveryPathIsEmitted(nets: seq<Net>, w: string, path: seq<nat>)
    requires ValidPath(nets, w, path)
    ensures Rank(nets, w, path) < |Compose(nets, w)|
    ensures Compose(nets, w)[Rank(nets, w, path)] == Follow(nets, w, path)
    decreases |nets|
  {
    if nets == [] {
    } else {
      var results := nets[0](w);
      EveryPathIsEmitted(nets[1..], results[path[0]], path[1..]);
      ComposeAllAround(nets[1..], results, path[0]);
    }
  }

  // Derivations are emitted in depth-first order, so no two of them share a place.
  lemma {:induction false} EmissionIsDepthFirst(nets: seq<Net>, w: string, p: seq<nat>, q: seq<nat>)
    requires ValidPath(nets, w, p) && ValidPath(nets, w, q)
    ensures Before(p, q) ==> Rank(nets, w, p) < Rank(nets, w, q)
    ensures p != q ==> Before(p, q) || Before(q, p)
    decreases |nets|
  {
    if nets == [] {
    } else {
      var results := nets[0](w);
      if p[0] == q[0] {
        EmissionIsDepthFirst(nets[1..], results[p[0]], p[1..], q[1..]);
        assert p == [p[0]] + p[1..] && q == [q[0]] + q[1..];
      } else if p[0] < q[0] {
        EveryPathIsEmitted(nets[1..], results[p[0]], p[1..]);
        ComposeAllAround(nets[1..], results[..q[0]], p[0]);
        assert results[..q[0]][..p[0]] == results[..p[0]];
      }
    }
  }

  // Nothing else is emitted: every place is the rank of a derivation.
  lemma {:induction false} EveryEmissionIsAPath(nets: seq<Net>, w: string, j: nat) returns (path: seq<nat>)
    requires j < |Compose(nets, w)|
    ensures ValidPath(nets, w, path) && Rank(nets, w, path) == j
    decreases |nets|, 0
  {
    if nets == [] {
      path := [];
    } else {
      var i, rest := EveryEmissionIsInABranch(nets[1..], nets[0](w), j);
      path := [i] + rest;
      assert path[1..] == rest;
    }
  }

  lemma {:induction false} EveryEmissionIsInABranch(nets: seq<Net>, ws: seq<string>, j: nat)
    returns (i: nat, rest: seq<nat>)
    requires j < |ComposeAll(nets, ws)|
    ensures i < |ws| && ValidPath(nets, ws[i], rest)
    ensures j == |ComposeAll(nets, ws[..i])| + Rank(nets, ws[i], rest)
    decreases |nets|, |ws| + 1
  {
    var first := |Compose(nets, ws[0])|;
    if j < first {
      i := 0;
      rest := EveryEmissionIsAPath(nets, ws[0], j);
    } else {
      var i', rest' := EveryEmissionIsInABranch(nets, ws[1..], j - first);
      i, rest := i' + 1, rest';
      assert ws[..i] == [ws[0]] + ws[1..][..i'];
      assert ws[..i][1..] == ws[1..][..i'];
    }
  }

  ghost predicate HasPath(nets: seq<Net>, w: string)
  {
    exists path :: ValidPath(nets, w, path)
  }

  // All derivations, in their order.
  ghost predicate ListsPaths(nets: seq<Net>, w: string, paths: seq<seq<nat>>)
  {
    && (forall j :: 0 <= j < |paths| ==> ValidPath(nets, w, paths[j]))
    && (forall path :: ValidPath(nets, w, path) ==> path in paths)
    && (forall i, j :: 0 <= i < j < |paths| ==> Before(paths[i], paths[j]))
  }

  lemma {:induction false} PathsBelow(nets: seq<Net>, w: string, n: nat) returns (paths: seq<seq<nat>>)
    requires n <= |Compose(nets, w)|
    ensures |paths| == n
    ensures forall j :: 0 <= j < n ==> ValidPath(nets, w, paths[j]) && Rank(nets, w, paths[j]) == j
  {
    hide Compose, ValidPath, Rank;
    if n == 0 {
      paths := [];
    } else {
      paths := PathsBelow(nets, w, n - 1);
      var path := EveryEmissionIsAPath(nets, w, n - 1);
      paths := paths + [path];
    }
  }

  lemma SameRank(nets: seq<Net>, w: string, p: seq<nat>, q: seq<nat>)
    requires ValidPath(nets, w, p) && ValidPath(nets, w, q)
    ensures Rank(nets, w, p) == Rank(nets, w, q) ==> p == q
    ensures Rank(nets, w, p) < Rank(nets, w, q) ==> Before(p, q)
  {
    hide ValidPath, Rank, Before;
    EmissionIsDepthFirst(nets, w, p, q);
    EmissionIsDepthFirst(nets, w, q, p);
  }

  // The composition lists where all derivations lead.
  lemma ComposeListsPaths(nets: seq<Net>, w: string) returns (paths: seq<seq<nat>>)
    ensures ListsPaths(nets, w, paths) && |paths| == |Compose(nets, w)|
    ensures forall j :: 0 <= j < |paths| ==> Compose(nets, w)[j] == Follow(nets, w, paths[j])
  {
    hide Compose, ValidPath, Rank, Before, Follow;
    paths := PathsBelow(nets, w, |Compose(nets, w)|);
    forall path | ValidPath(nets, w, path)
      ensures path in paths
    {
      EveryPathIsEmitted(nets, w, path);
      SameRank(nets, w, path, paths[Rank(nets, w, path)]);
    }
    forall i, j | 0 <= i < j < |paths|
      ensures Before(paths[i], paths[j])
    {
      SameRank(nets, w, paths[i], paths[j]);
    }
    forall j | 0 <= j < |paths|
      ensures Compose(nets, w)[j] == Follow(nets, w, paths[j])
    {
      EveryPathIsEmitted(nets, w, paths[j]);
    }
  }

  // ---- The other search mode: one net answers for the whole chain. ----

  lemma {:induction false} FirstAnswerIsFirst(nets: seq<Net>, w: string, i: nat)
    requires i <= |nets| && forall j :: 0 <= j < i ==> nets[j](w) == []
    requires i < |nets| ==> nets[i](w) != []
    ensures FirstAnswer(nets, w) == if i < |nets| then nets[i](w) else []
  {
    if i == 0 {
    } else {
      forall j | 0 <= j < i - 1
        ensures nets[1..][j](w) == []
      {
        assert nets[1..][j] == nets[j + 1];
      }
      FirstAnswerIsFirst(nets[1..], w, i - 1);
    }
  }
}
