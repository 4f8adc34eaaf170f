// Tokenize and Tokenize2 of squoia_xfer_lex.cc: the maximal runs of characters that are no
// delimiters, as a list and concatenated.
module Tokens {
  import opened Strings

  ghost predicate Free(s: string, delimiters: string)
  {
    forall i :: 0 <= i < |s| ==> s[i] !in delimiters
  }

  // find_first_not_of and find_first_of; |s| stands for npos.
  function FindNotOf(s: string, delimiters: string, from: nat): (r: nat)
    requires from <= |s|
    ensures from <= r <= |s| && (r < |s| ==> s[r] !in delimiters)
    decreases |s| - from
  {
    if from == |s| || s[from] !in delimiters then from else FindNotOf(s, delimiters, from + 1)
  }

  function FindOf(s: string, delimiters: string, from: nat): (r: nat)
    requires from <= |s|
    ensures from <= r <= |s| && (r < |s| ==> s[r] in delimiters)
    ensures Free(s[from..r], delimiters)
    decreases |s| - from
  {
    if from == |s| || s[from] in delimiters then from
    else
      var r := FindOf(s, delimiters, from + 1);
      assert s[from..r] == [s[from]] + s[from + 1..r];
      r
  }

  // ---- The runs. ----

  // The run that is being read, and the rest.
  function RunsFrom(run: string, s: string, delimiters: string): seq<string>
    decreases |s|
  {
    if s == "" then (if run == "" then [] else [run])
    else if s[0] in delimiters then (if run == "" then [] else [run]) + RunsFrom("", s[1..], delimiters)
    else RunsFrom(run + [s[0]], s[1..], delimiters)
  }

  function Runs(s: string, delimiters: string): seq<string>
  {
    RunsFrom("", s, delimiters)
  }

  function Without(s: string, delimiters: string): string
  {
    if s == "" then "" else (if s[0] in delimiters then "" else [s[0]]) + Without(s[1..], delimiters)
  }

  lemma {:induction false} FreeRun(run: string, u: string, s: string, delimiters: string)
    requires Free(u, delimiters)
    ensures RunsFrom(run, u + s, delimiters) == RunsFrom(run + u, s, delimiters)
    decreases |u|
  {
    if u == "" {
      assert u + s == s && run + u == run;
    } else {
      assert (u + s)[1..] == u[1..] + s;
      FreeRun(run + [u[0]], u[1..], s, delimiters);
      assert run + [u[0]] + u[1..] == run + u;
    }
  }

  // Runs are non-empty and free of delimiters, and concatenated they are the string without them.
  lemma {:induction false} RunsAreFree(run: string, s: string, delimiters: string)
    requires Free(run, delimiters)
    ensures forall i :: 0 <= i < |RunsFrom(run, s, delimiters)| ==>
      RunsFrom(run, s, delimiters)[i] != "" && Free(RunsFrom(run, s, delimiters)[i], delimiters)
    ensures Concat(RunsFrom(run, s, delimiters)) == run + Without(s, delimiters)
    decreases |s|
  {
    if s == "" {
      assert run != "" ==> [run][1..] == [] && Concat([run]) == run + Concat([run][1..]);
    } else if s[0] in delimiters {
      RunsAreFree("", s[1..], delimiters);
      var later := RunsFrom("", s[1..], delimiters);
      if run != "" {
        assert ([run] + later)[1..] == later;
      } else {
        assert [] + later == later;
      }
    } else {
      RunsAreFree(run + [s[0]], s[1..], delimiters);
      assert run + [s[0]] + Without(s[1..], delimiters) == run + ([s[0]] + Without(s[1..], delimiters));
    }
  }

  // What a character that is in no run is: the runs take nothing from outside the string.
  lemma {:induction false} RunsKeepOut(run: string, s: string, delimiters: string, c: char)
    requires c !in run && c !in s
    ensures forall i :: 0 <= i < |RunsFrom(run, s, delimiters)| ==> c !in RunsFrom(run, s, delimiters)[i]
    decreases |s|
  {
    if s == "" {
    } else {
      if s[0] in delimiters {
        RunsKeepOut("", s[1..], delimiters, c);
      } else {
        RunsKeepOut(run + [s[0]], s[1..], delimiters, c);
      }
    }
  }

  lemma {:induction false} WithoutIsFree(s: string, delimiters: string)
    ensures Free(Without(s, delimiters), delimiters)
  {
    if s == "" {
    } else {
      WithoutIsFree(s[1..], delimiters);
    }
  }

  lemma {:induction false} WithoutKeepsOut(s: string, delimiters: string, c: char)
    requires c !in s
    ensures c !in Without(s, delimiters)
  {
    if s == "" {
    } else {
      WithoutKeepsOut(s[1..], delimiters, c);
    }
  }

  lemma {:induction false} WithoutAppend(s: string, t: string, delimiters: string)
    ensures Without(s + t, delimiters) == Without(s, delimiters) + Without(t, delimiters)
  {
    if s == "" {
      assert s + t == t;
    } else {
      assert (s + t)[1..] == s[1..] + t;
      WithoutAppend(s[1..], t, delimiters);
    }
  }

  lemma {:induction false} WithoutFree(s: string, delimiters: string)
    requires Free(s, delimiters)
    ensures Without(s, delimiters) == s
  {
    if s == "" {
    } else {
      WithoutFree(s[1..], delimiters);
    }
  }

  // Tokens followed by a delimiter each, or preceded by one, are read back.
  lemma {:induction false} RunsOfSnoc(run: string, s: string, token: string, delimiters: string, d: char)
    requires d in delimiters && Free(token, delimiters) && token != ""
    ensures RunsFrom(run, s + [d] + token, delimiters) == RunsFrom(run, s, delimiters) + [token]
    decreases |s|
  {
    var all := s + [d] + token;
    if s == "" {
      assert all[1..] == token;
      FreeRun("", token, "", delimiters);
      assert token + "" == token && "" + token == token;
    } else {
      assert all[1..] == s[1..] + [d] + token && all[0] == s[0];
      if s[0] in delimiters {
        RunsOfSnoc("", s[1..], token, delimiters, d);
      } else {
        RunsOfSnoc(run + [s[0]], s[1..], token, delimiters, d);
      }
    }
  }

  // A delimiter at the end adds no run.
  lemma {:induction false} TrailingDelimiter(run: string, s: string, delimiters: string, d: char)
    requires d in delimiters
    ensures RunsFrom(run, s + [d], delimiters) == RunsFrom(run, s, delimiters)
    decreases |s|
  {
    var all := s + [d];
    if s == "" {
      assert all[1..] == "";
      assert RunsFrom("", "", delimiters) == [];
    } else {
      assert all[1..] == s[1..] + [d] && all[0] == s[0];
      TrailingDelimiter(if s[0] in delimiters then "" else run + [s[0]], s[1..], delimiters, d);
    }
  }

  lemma RunsOfCons(token: string, s: string, delimiters: string)
    requires Free(token, delimiters) && token != "" && s != "" && s[0] in delimiters
    ensures Runs(token + s, delimiters) == [token] + Runs(s[1..], delimiters)
  {
    FreeRun("", token, s, delimiters);
    assert "" + token == token;
  }

  lemma RunsOfOne(token: string, delimiters: string)
    requires Free(token, delimiters) && token != ""
    ensures Runs(token, delimiters) == [token]
  {
    FreeRun("", token, "", delimiters);
    assert token + "" == token && "" + token == token;
  }

  lemma RunsSkip(s: string, delimiters: string)
    requires s != "" && s[0] in delimiters
    ensures Runs(s, delimiters) == Runs(s[1..], delimiters)
  {
  }

  // ---- The runs are maximal: the only way to cut a string at its delimiters. ----

  function Interleaved(gaps: seq<string>, tokens: seq<string>): string
    requires |gaps| == |tokens| + 1
  {
    if tokens == [] then gaps[0] else gaps[0] + (tokens[0] + Interleaved(gaps[1..], tokens[1..]))
  }

  ghost predicate AllIn(s: string, delimiters: string)
  {
    forall i :: 0 <= i < |s| ==> s[i] in delimiters
  }

  // Non-empty pieces without delimiters, kept apart by non-empty gaps of delimiters.
  ghost predicate Cuts(gaps: seq<string>, tokens: seq<string>, delimiters: string)
  {
    && |gaps| == |tokens| + 1
    && (forall k :: 0 <= k < |tokens| ==> tokens[k] != "" && Free(tokens[k], delimiters))
    && (forall k :: 0 <= k < |gaps| ==> AllIn(gaps[k], delimiters))
    && (forall k :: 0 < k < |tokens| ==> gaps[k] != "")
  }

  lemma {:induction false} RunsSkipGap(gap: string, s: string, delimiters: string)
    requires AllIn(gap, delimiters)
    ensures Runs(gap + s, delimiters) == Runs(s, delimiters)
  {
    if gap == "" {
      assert gap + s == s;
    } else {
      assert (gap + s)[1..] == gap[1..] + s;
      RunsSkip(gap + s, delimiters);
      RunsSkipGap(gap[1..], s, delimiters);
    }
  }

  lemma RunsOfFirst(token: string, s: string, delimiters: string)
    requires token != "" && Free(token, delimiters) && (s == "" || s[0] in delimiters)
    ensures Runs(token + s, delimiters) == [token] + Runs(s, delimiters)
  {
    hide Runs;
    if s == "" {
      assert token + s == token;
      RunsOfOne(token, delimiters);
      NoMoreRuns(s, delimiters);
      assert s[|s|..] == s;
    } else {
      RunsOfCons(token, s, delimiters);
      RunsSkip(s, delimiters);
    }
  }

  // Any such cut has the runs as its pieces.
  lemma {:induction false} CutsAreRuns(gaps: seq<string>, tokens: seq<string>, delimiters: string)
    requires Cuts(gaps, tokens, delimiters)
    ensures Runs(Interleaved(gaps, tokens), delimiters) == tokens
    decreases |tokens|
  {
    hide Runs;
    if tokens == [] {
      RunsSkipGap(gaps[0], "", delimiters);
      assert gaps[0] + "" == gaps[0] && ""[|""|..] == "";
      NoMoreRuns("", delimiters);
    } else {
      var later := Interleaved(gaps[1..], tokens[1..]);
      CutsAreRuns(gaps[1..], tokens[1..], delimiters);
      RunsSkipGap(gaps[0], tokens[0] + later, delimiters);
      assert |tokens| > 1 ==> gaps[1] != "" && later[0] == gaps[1][0];
      RunsOfFirst(tokens[0], later, delimiters);
    }
  }

  // And there is one: the runs with what stands between them are the string.
  lemma {:induction false} RunsAreACut(run: string, s: string, delimiters: string) returns (gaps: seq<string>)
    requires Free(run, delimiters)
    ensures Cuts(gaps, RunsFrom(run, s, delimiters), delimiters)
    ensures Interleaved(gaps, RunsFrom(run, s, delimiters)) == run + s
    ensures run != "" ==> gaps[0] == ""
    decreases |s|
  {
    hide Cuts, Interleaved, Free;
    RunsStep(run, s, delimiters);
    if s == "" {
      gaps := if run == "" then [""] else ["", ""];
      LastRunIsCut(run, delimiters);
      assert run + s == run;
    } else if s[0] in delimiters {
      NothingIsFree(delimiters);
      var later := RunsAreACut("", s[1..], delimiters);
      GapGrows(run, s, later, RunsFrom("", s[1..], delimiters), delimiters);
      var longer := [[s[0]] + later[0]] + later[1..];
      gaps := if run == "" then longer else [""] + longer;
      assert run == "" ==> run + s == s;
    } else {
      OneMoreFree(run, s[0], delimiters);
      gaps := RunsAreACut(run + [s[0]], s[1..], delimiters);
      assert run + [s[0]] + s[1..] == run + s;
    }
  }

  lemma RunsStep(run: string, s: string, delimiters: string)
    ensures RunsFrom(run, s, delimiters)
      == if s == "" then (if run == "" then [] else [run])
         else if s[0] !in delimiters then RunsFrom(run + [s[0]], s[1..], delimiters)
         else if run == "" then RunsFrom("", s[1..], delimiters)
         else [run] + RunsFrom("", s[1..], delimiters)
  {
    if s != "" && s[0] in delimiters && run == "" {
      assert [] + RunsFrom("", s[1..], delimiters) == RunsFrom("", s[1..], delimiters);
    }
  }

  lemma NothingIsFree(delimiters: string)
    ensures Free("", delimiters)
  {
  }

  lemma OneMoreFree(run: string, c: char, delimiters: string)
    requires Free(run, delimiters) && c !in delimiters
    ensures Free(run + [c], delimiters)
  {
  }

  lemma LastRunIsCut(run: string, delimiters: string)
    requires Free(run, delimiters)
    ensures var tokens := if run == "" then [] else [run];
      var gaps := if run == "" then [""] else ["", ""];
      Cuts(gaps, tokens, delimiters) && Interleaved(gaps, tokens) == run
  {
    assert Interleaved([""], []) == "";
    assert ["", ""][1..] == [""] && [run][1..] == [];
    assert "" + (run + "") == run;
  }

  lemma GapGrows(run: string, s: string, gaps: seq<string>, tokens: seq<string>, delimiters: string)
    requires Cuts(gaps, tokens, delimiters) && Free(run, delimiters)
    requires s != "" && s[0] in delimiters && Interleaved(gaps, tokens) == s[1..]
    ensures |gaps| > 0
    ensures var longer := [[s[0]] + gaps[0]] + gaps[1..];
      if run == "" then Cuts(longer, tokens, delimiters) && Interleaved(longer, tokens) == s
      else Cuts([""] + longer, [run] + tokens, delimiters) && Interleaved([""] + longer, [run] + tokens) == run + s
  {
    var longer := [[s[0]] + gaps[0]] + gaps[1..];
    assert longer[1..] == gaps[1..];
    assert s == [s[0]] + s[1..];
    assert Interleaved(longer, tokens) == s;
    assert ([""] + longer)[1..] == longer && ([run] + tokens)[1..] == tokens;
    assert "" + (run + s) == run + s;
  }

  // ---- The loops. ----

  lemma {:induction false} SkipDelimiters(s: string, delimiters: string, from: nat)
    requires from <= |s|
    ensures Runs(s[from..], delimiters) == Runs(s[FindNotOf(s, delimiters, from)..], delimiters)
    decreases |s| - from
  {
    if from < |s| && s[from] in delimiters {
      assert s[from..][1..] == s[from + 1..];
      SkipDelimiters(s, delimiters, from + 1);
    }
  }

  lemma TakeRun(s: string, delimiters: string, lastPos: nat)
    requires lastPos < |s| && s[lastPos] !in delimiters
    ensures var pos := FindOf(s, delimiters, lastPos);
      pos > lastPos && Runs(s[lastPos..], delimiters) == [s[lastPos..pos]] + Runs(s[pos..], delimiters)
  {
    var pos := FindOf(s, delimiters, lastPos);
    var token := s[lastPos..pos];
    assert s[lastPos..] == token + s[pos..];
    if pos == |s| {
      assert s[lastPos..] == token && s[pos..] == "";
      RunsOfOne(token, delimiters);
    } else {
      RunsOfCons(token, s[pos..], delimiters);
      RunsSkip(s[pos..], delimiters);
    }
  }

  method Tokenize(str: string, delimiters: string) returns (tokens: seq<string>)
    ensures tokens == Runs(str, delimiters)
  {
    hide Runs, FindNotOf, FindOf;
    tokens := [];
    var lastPos := FindNotOf(str, delimiters, 0);
    SkipDelimiters(str, delimiters, 0);
    assert str[0..] == str;
    var pos := FindOf(str, delimiters, lastPos);
    while pos != |str| || lastPos != |str|
      invariant lastPos <= |str| && (lastPos < |str| ==> str[lastPos] !in delimiters)
      invariant pos == FindOf(str, delimiters, lastPos)
      invariant tokens + Runs(str[lastPos..], delimiters) == Runs(str, delimiters)
      decreases |str| - lastPos
    {
      TakeRun(str, delimiters, lastPos);
      SkipDelimiters(str, delimiters, pos);
      tokens := tokens + [str[lastPos..pos]];
      lastPos := FindNotOf(str, delimiters, pos);
      pos := FindOf(str, delimiters, lastPos);
    }
    NoMoreRuns(str, delimiters);
  }

  lemma NoMoreRuns(str: string, delimiters: string)
    ensures Runs(str[|str|..], delimiters) == []
  {
  }

  method Tokenize2(str: string, delimiters: string) returns (tokens: string)
    ensures tokens == Without(str, delimiters)
  {
    hide Runs, FindNotOf, FindOf, Concat;
    tokens := "";
    var lastPos := FindNotOf(str, delimiters, 0);
    SkipDelimiters(str, delimiters, 0);
    assert str[0..] == str;
    var pos := FindOf(str, delimiters, lastPos);
    while pos != |str| || lastPos != |str|
      invariant lastPos <= |str| && (lastPos < |str| ==> str[lastPos] !in delimiters)
      invariant pos == FindOf(str, delimiters, lastPos)
      invariant tokens + Concat(Runs(str[lastPos..], delimiters)) == Concat(Runs(str, delimiters))
      decreases |str| - lastPos
    {
      TakeRun(str, delimiters, lastPos);
      SkipDelimiters(str, delimiters, pos);
      ConcatCons(str[lastPos..pos], Runs(str[pos..], delimiters));
      tokens := tokens + str[lastPos..pos];
      lastPos := FindNotOf(str, delimiters, pos);
      pos := FindOf(str, delimiters, lastPos);
    }
    NoMoreRuns(str, delimiters);
    NothingToConcat();
    RunsConcat(str, delimiters);
  }

  lemma ConcatCons(token: string, later: seq<string>)
    ensures Concat([token] + later) == token + Concat(later)
  {
    assert ([token] + later)[1..] == later;
  }

  lemma NothingToConcat()
    ensures Concat([]) == ""
  {
  }

  lemma RunsConcat(str: string, delimiters: string)
    ensures Concat(Runs(str, delimiters)) == Without(str, delimiters)
  {
    RunsAreFree("", str, delimiters);
  }
}
