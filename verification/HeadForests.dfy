// Parent relations on the words of a sentence. None is the sentence's VROOT.
module HeadForests {
  import opened Options

  type Parents = seq<Option<nat>>

  ghost predicate InRange(parents: Parents)
  {
    forall x :: 0 <= x < |parents| && parents[x].Some? ==> parents[x].value < |parents|
  }

  // Climbing at most n steps from t arrives at VROOT.
  ghost predicate RootWithin(parents: Parents, t: Option<nat>, n: nat)
    decreases n
  {
    t.Some? ==> t.value < |parents| && n > 0 && RootWithin(parents, parents[t.value], n - 1)
  }

  // x is met when climbing at most n steps from t.
  ghost predicate OnPath(parents: Parents, t: Option<nat>, x: nat, n: nat)
    decreases n
  {
    t.Some? && t.value < |parents| && (t.value == x || (n > 0 && OnPath(parents, parents[t.value], x, n - 1)))
  }

  ghost predicate ReachesRoot(parents: Parents, x: nat)
  {
    exists n: nat :: RootWithin(parents, Some(x), n)
  }

  ghost predicate Forest(parents: Parents)
  {
    forall x: nat :: x < |parents| ==> ReachesRoot(parents, x)
  }

  lemma {:induction false} RootWithinMore(parents: Parents, t: Option<nat>, n: nat, m: nat)
    requires RootWithin(parents, t, n) && n <= m
    ensures RootWithin(parents, t, m)
    decreases n
  {
    if t.Some? {
      RootWithinMore(parents, parents[t.value], n - 1, m - 1);
    }
  }

  // A node above one that reaches VROOT reaches it in no more steps.
  lemma {:induction false} RootAlongPath(parents: Parents, t: Option<nat>, x: nat, n: nat, m: nat)
    requires OnPath(parents, t, x, n) && RootWithin(parents, t, m)
    ensures RootWithin(parents, Some(x), m)
    decreases n
  {
    if t.value != x {
      RootAlongPath(parents, parents[t.value], x, n - 1, m - 1);
      RootWithinMore(parents, Some(x), m - 1, m);
    }
  }

  // A node on the path above itself never reaches VROOT.
  lemma {:induction false} CyclesNeverRoot(parents: Parents, x: nat, n: nat, m: nat)
    requires x < |parents| && OnPath(parents, parents[x], x, n)
    ensures !RootWithin(parents, Some(x), m)
  {
    if RootWithin(parents, Some(x), m) {
      RootAlongPath(parents, parents[x], x, n, m - 1);
      CyclesNeverRoot(parents, x, n, m - 1);
    }
  }

  // ---- Cycles. ----

  // Each node's parent is the next one of the list.
  ghost predicate Climbs(parents: Parents, path: seq<nat>)
  {
    && (forall k :: 0 <= k < |path| ==> path[k] < |parents|)
    && forall k :: 0 <= k < |path| - 1 ==> parents[path[k]] == Some(path[k + 1])
  }

  ghost predicate IsCycle(path: seq<nat>)
  {
    |path| > 1 && path[0] == path[|path| - 1]
  }

  // Climbing long enough without arriving at VROOT visits as many nodes.
  lemma {:induction false} LongClimb(parents: Parents, x: nat, n: nat) returns (path: seq<nat>)
    requires InRange(parents) && x < |parents| && !RootWithin(parents, Some(x), n + 1)
    ensures |path| == n + 1 && path[0] == x && Climbs(parents, path)
    decreases n
  {
    if n == 0 {
      path := [x];
    } else {
      var later := LongClimb(parents, parents[x].value, n - 1);
      path := [x] + later;
      assert forall k :: 1 <= k < |path| ==> path[k] == later[k - 1];
    }
  }

  lemma {:induction false} Pigeonhole(path: seq<nat>, n: nat) returns (i: nat, j: nat)
    requires |path| > n > 0 && forall k :: 0 <= k < |path| ==> path[k] < n
    ensures i < j < |path| && path[i] == path[j]
    decreases n
  {
    assert n == 1 ==> path[0] == path[1] == n - 1;
    if a, b :| 0 <= a < b < |path| && path[a] == path[b] == n - 1 {
      i, j := a, b;
    } else {
      var k := if c: nat :| c < |path| && path[c] == n - 1 then c else |path| - 1;
      var others := path[..k] + path[k + 1..];
      assert forall m :: 0 <= m < |others| ==> others[m] == path[if m < k then m else m + 1];
      i, j := Pigeonhole(others, n - 1);
      i, j := if i < k then i else i + 1, if j < k then j else j + 1;
    }
  }

  lemma {:induction false} ClimbIsPath(parents: Parents, path: seq<nat>)
    requires Climbs(parents, path) && path != []
    ensures OnPath(parents, Some(path[0]), path[|path| - 1], |path|)
  {
    if |path| == 1 {
    } else {
      ClimbIsPath(parents, path[1..]);
    }
  }

  // A parent relation is a forest exactly when it has no cycle.
  lemma ForestIffNoCycle(parents: Parents)
    requires InRange(parents)
    ensures Forest(parents) <==> forall path :: Climbs(parents, path) ==> !IsCycle(path)
  {
    if Forest(parents) {
      forall path | Climbs(parents, path) && IsCycle(path)
        ensures false
      {
        var x := path[0];
        ClimbIsPath(parents, path[1..]);
        assert ReachesRoot(parents, x);
        var m: nat :| RootWithin(parents, Some(x), m);
        CyclesNeverRoot(parents, x, |path| - 1, m);
      }
    }
    if x: nat :| x < |parents| && !ReachesRoot(parents, x) {
      var n := |parents|;
      assert !RootWithin(parents, Some(x), n + 1);
      var path := LongClimb(parents, x, n);
      var i, j := Pigeonhole(path, n);
      var cycle := path[i..j + 1];
      assert Climbs(parents, cycle) && IsCycle(cycle);
    }
  }

  // Re-parenting x does not disturb a path that avoids x.
  lemma {:induction false} PathAvoids(parents: Parents, x: nat, p: Option<nat>, t: Option<nat>, n: nat)
    requires x < |parents| && RootWithin(parents, t, n) && !OnPath(parents, t, x, n)
    ensures RootWithin(parents[x := p], t, n)
    decreases n
  {
    if t.Some? {
      PathAvoids(parents, x, p, parents[t.value], n - 1);
    }
  }

  lemma {:induction false} PathThrough(parents: Parents, x: nat, p: Option<nat>, t: Option<nat>, n: nat, k: nat)
    requires x < |parents| && RootWithin(parents, t, n) && RootWithin(parents[x := p], p, k)
    ensures RootWithin(parents[x := p], t, n + k + 1)
    decreases n
  {
    if t == Some(x) {
      RootWithinMore(parents[x := p], p, k, n + k);
    } else if t.Some? {
      PathThrough(parents, x, p, parents[t.value], n - 1, k);
    }
  }

  // Moving a node under one that is not below it keeps the forest.
  lemma MoveKeepsForest(parents: Parents, x: nat, p: nat, n: nat)
    requires Forest(parents) && x < |parents| && p < |parents|
    requires RootWithin(parents, Some(p), n) && !OnPath(parents, Some(p), x, n)
    ensures Forest(parents[x := Some(p)])
  {
    var parents' := parents[x := Some(p)];
    PathAvoids(parents, x, Some(p), Some(p), n);
    forall y: nat | y < |parents'|
      ensures ReachesRoot(parents', y)
    {
      assert ReachesRoot(parents, y);
      var m: nat :| RootWithin(parents, Some(y), m);
      PathThrough(parents, x, Some(p), Some(y), m, n);
      assert RootWithin(parents', Some(y), m + n + 1);
    }
  }

  // A path of parents' that stops at x is also one of parents when they agree on it.
  lemma {:induction false} PathTransfers(from: Parents, to: Parents, t: Option<nat>, x: nat, n: nat)
    requires OnPath(from, t, x, n) && |from| == |to|
    requires forall y :: 0 <= y < |from| && from[y].Some? ==> to[y] == from[y]
    ensures OnPath(to, t, x, n)
    decreases n
  {
    if t.value != x {
      PathTransfers(from, to, from[t.value], x, n - 1);
    }
  }

  // ---- Children in input order. ----

  function ChildrenOf(parents: Parents, t: Option<nat>, n: nat): seq<nat>
    requires n <= |parents|
  {
    if n == 0 then []
    else ChildrenOf(parents, t, n - 1) + (if parents[n - 1] == t then [n - 1] else [])
  }

  function Without(list: seq<nat>, x: nat): seq<nat>
  {
    if list == [] then []
    else Without(list[..|list| - 1], x) + (if list[|list| - 1] == x then [] else [list[|list| - 1]])
  }

  // The list is exactly the children, each once, in increasing order.
  lemma {:induction false} ChildrenInOrder(parents: Parents, t: Option<nat>, n: nat)
    requires n <= |parents|
    ensures forall x: nat :: x in ChildrenOf(parents, t, n) <==> x < n && parents[x] == t
    ensures forall i, j :: 0 <= i < j < |ChildrenOf(parents, t, n)| ==>
      ChildrenOf(parents, t, n)[i] < ChildrenOf(parents, t, n)[j]
  {
    if n == 0 {
    } else {
      ChildrenInOrder(parents, t, n - 1);
      var before := ChildrenOf(parents, t, n - 1);
      assert forall i :: 0 <= i < |before| ==> before[i] in before;
    }
  }

  lemma {:induction false} WithoutChild(parents: Parents, t: Option<nat>, x: nat, p: Option<nat>, n: nat)
    requires n <= |parents| && x < |parents| && p != t
    ensures ChildrenOf(parents[x := p], t, n) == Without(ChildrenOf(parents, t, n), x)
  {
    if n == 0 {
    } else {
      WithoutChild(parents, t, x, p, n - 1);
      var before := ChildrenOf(parents, t, n - 1);
      if parents[n - 1] == t {
        assert (before + [n - 1])[..|before|] == before;
      } else {
        assert before + [] == before;
      }
    }
  }

  // Moving a node under one that so far has only earlier children appends it to the list.
  lemma {:induction false} AppendedChild(parents: Parents, x: nat, p: Option<nat>, n: nat)
    requires n <= |parents| && x < |parents| && parents[x] != p
    requires forall y :: x < y < |parents| ==> parents[y] != p
    ensures ChildrenOf(parents[x := p], p, n) == ChildrenOf(parents, p, n) + (if x < n then [x] else [])
  {
    if n == 0 {
    } else {
      AppendedChild(parents, x, p, n - 1);
    }
  }

  lemma {:induction false} OtherChildren(parents: Parents, t: Option<nat>, x: nat, p: Option<nat>, n: nat)
    requires n <= |parents| && x < |parents| && p != t && parents[x] != t
    ensures ChildrenOf(parents[x := p], t, n) == ChildrenOf(parents, t, n)
  {
    if n == 0 {
    } else {
      OtherChildren(parents, t, x, p, n - 1);
    }
  }

  lemma {:induction false} FlatChildren(parents: Parents, n: nat)
    requires n <= |parents| && forall x :: 0 <= x < |parents| ==> parents[x] == None
    ensures ChildrenOf(parents, None, n) == seq(n, i => i)
    ensures forall p :: ChildrenOf(parents, Some(p), n) == []
  {
    if n == 0 {
    } else {
      FlatChildren(parents, n - 1);
    }
  }
}
