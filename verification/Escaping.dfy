// write_xml of squoia_xfer_lex.cc: five replacement loops run in place, one after the other, and the
// single left-to-right substitution they amount to.
module Escaping {
  import opened Options
  import opened Strings

  const AMP := "&amp;"
  const QUOT := "&quot;"
  const APOS := "&apos;"
  const LT := "&lt;"
  const GT := "&gt;"

  // ---- The substitution. ----

  // An apostrophe is kept next to an attribute boundary: after '=', before a space, and at the end.
  predicate KeepsApostrophe(prev: Option<char>, rest: string)
  {
    prev == Some('=') || rest == "" || rest[0] == ' '
  }

  function Substitute(prev: Option<char>, c: char, rest: string): string
  {
    if c == '&' then AMP
    else if c == '"' then QUOT
    else if c == '\'' then (if KeepsApostrophe(prev, rest) then "'" else APOS)
    else if c == '<' then LT
    else if c == '>' then GT
    else [c]
  }

  function EscapeFrom(prev: Option<char>, s: string): string
    decreases |s|
  {
    if s == "" then "" else Substitute(prev, s[0], s[1..]) + EscapeFrom(Some(s[0]), s[1..])
  }

  function Escape(s: string): string
  {
    EscapeFrom(None, s)
  }

  lemma EscapeFromStep(prev: Option<char>, s: string)
    requires s != ""
    ensures EscapeFrom(prev, s) == Substitute(prev, s[0], s[1..]) + EscapeFrom(Some(s[0]), s[1..])
  {
  }

  // ---- Reading the predefined entities back (section 4.6 of XML 1.0). ----

  predicate StartsEntity(s: string)
  {
    AMP <= s || QUOT <= s || APOS <= s || LT <= s || GT <= s
  }

  function Decode(s: string): string
  {
    if s == "" then ""
    else if AMP <= s then "&" + Decode(s[|AMP|..])
    else if QUOT <= s then "\"" + Decode(s[|QUOT|..])
    else if APOS <= s then "'" + Decode(s[|APOS|..])
    else if LT <= s then "<" + Decode(s[|LT|..])
    else if GT <= s then ">" + Decode(s[|GT|..])
    else [s[0]] + Decode(s[1..])
  }

  lemma DecodeStep(prev: Option<char>, c: char, rest: string, tail: string)
    ensures Decode(Substitute(prev, c, rest) + tail) == [c] + Decode(tail)
  {
    var piece := Substitute(prev, c, rest);
    assert (piece + tail)[|piece|..] == tail;
    assert piece <= piece + tail;
    assert (piece + tail)[0] == piece[0];
    if |piece| > 1 {
      assert (piece + tail)[1] == piece[1] && (piece + tail)[2] == piece[2];
    }
  }

  // Decoding gives the input back.
  lemma {:induction false} DecodeEscape(prev: Option<char>, s: string)
    ensures Decode(EscapeFrom(prev, s)) == s
    decreases |s|
  {
    hide Decode, Substitute;
    if s == "" {
      DecodeNothing();
    } else {
      DecodeEscape(Some(s[0]), s[1..]);
      DecodeStep(prev, s[0], s[1..], EscapeFrom(Some(s[0]), s[1..]));
    }
  }

  lemma DecodeNothing()
    ensures Decode("") == ""
  {
  }

  // No raw quote or angle bracket is left, and every ampersand starts an entity.
  lemma {:induction false} EscapedIsClean(prev: Option<char>, s: string)
    ensures var e := EscapeFrom(prev, s);
      && '"' !in e && '<' !in e && '>' !in e
      && forall i :: 0 <= i < |e| && e[i] == '&' ==> StartsEntity(e[i..])
    decreases |s|
  {
    if s == "" {
    } else {
      EscapedIsClean(Some(s[0]), s[1..]);
      var piece := Substitute(prev, s[0], s[1..]);
      var tail := EscapeFrom(Some(s[0]), s[1..]);
      PieceIsClean(prev, s[0], s[1..]);
      hide Substitute, EscapeFrom, StartsEntity;
      var e := piece + tail;
      forall i | 0 <= i < |e| && e[i] == '&'
        ensures StartsEntity(e[i..])
      {
        if i < |piece| {
          assert e[0..] == e && piece <= e;
          EntityExtends(piece, tail);
        } else {
          assert e[i..] == tail[i - |piece|..];
        }
      }
    }
  }

  lemma PieceIsClean(prev: Option<char>, c: char, rest: string)
    ensures var piece := Substitute(prev, c, rest);
      && '"' !in piece && '<' !in piece && '>' !in piece
      && (forall i :: 0 <= i < |piece| && piece[i] == '&' ==> i == 0 && StartsEntity(piece))
  {
  }

  lemma EntityExtends(s: string, t: string)
    requires StartsEntity(s)
    ensures StartsEntity(s + t)
  {
    assert s <= s + t;
  }

  // ---- The loops. ----

  function ReplaceAll(s: string, c: char, subst: string): string
  {
    if s == "" then "" else (if s[0] == c then subst else [s[0]]) + ReplaceAll(s[1..], c, subst)
  }

  lemma {:induction false} ReplaceAllAppend(s: string, t: string, c: char, subst: string)
    ensures ReplaceAll(s + t, c, subst) == ReplaceAll(s, c, subst) + ReplaceAll(t, c, subst)
  {
    if s == "" {
      assert s + t == t;
    } else {
      assert (s + t)[1..] == s[1..] + t;
      ReplaceAllAppend(s[1..], t, c, subst);
    }
  }

  lemma {:induction false} ReplaceAllAbsent(s: string, c: char, subst: string)
    requires c !in s
    ensures ReplaceAll(s, c, subst) == s
  {
    if s == "" {
    } else {
      ReplaceAllAbsent(s[1..], c, subst);
    }
  }

  lemma ReplaceAllOne(c: char, subst: string)
    ensures ReplaceAll([c], c, subst) == subst
  {
    assert [c][1..] == "";
    assert ReplaceAll([c], c, subst) == subst + ReplaceAll("", c, subst);
  }

  function Occurrences(s: string, c: char): nat
  {
    if s == "" then 0 else (if s[0] == c then 1 else 0) + Occurrences(s[1..], c)
  }

  lemma {:induction false} OccurrencesAppend(s: string, t: string, c: char)
    ensures Occurrences(s + t, c) == Occurrences(s, c) + Occurrences(t, c)
  {
    if s == "" {
      assert s + t == t;
    } else {
      assert (s + t)[1..] == s[1..] + t;
      OccurrencesAppend(s[1..], t, c);
    }
  }

  lemma {:induction false} NoOccurrence(s: string, c: char)
    requires c !in s
    ensures Occurrences(s, c) == 0
  {
    if s == "" {
    } else {
      NoOccurrence(s[1..], c);
    }
  }

  lemma OneOccurrence(c: char)
    ensures Occurrences([c], c) == 1
  {
    assert [c][1..] == "";
  }

  // while ((pos = s.find(c)) != npos) s.replace(pos, 1, subst);
  method ReplaceUntilGone(input: string, c: char, subst: string) returns (s: string)
    requires c !in subst
    ensures s == ReplaceAll(input, c, subst)
  {
    hide ReplaceAll, Occurrences, Find;
    s := input;
    var pos := Find(s, c, 0);
    while pos != |s|
      invariant pos == Find(s, c, 0)
      invariant ReplaceAll(s, c, subst) == ReplaceAll(input, c, subst)
      decreases Occurrences(s, c)
    {
      var before, after := s[..pos], s[pos + 1..];
      ReplaceOnce(before, after, c, subst);
      assert s == before + [c] + after;
      s := before + subst + after;
      pos := Find(s, c, 0);
    }
    assert s[0..pos] == s;
    ReplaceAllAbsent(s, c, subst);
  }

  lemma ReplaceOnce(before: string, after: string, c: char, subst: string)
    requires c !in subst
    ensures ReplaceAll(before + subst + after, c, subst) == ReplaceAll(before + [c] + after, c, subst)
    ensures Occurrences(before + subst + after, c) < Occurrences(before + [c] + after, c)
  {
    hide ReplaceAll, Occurrences;
    ReplaceAllAppend(before + subst, after, c, subst);
    ReplaceAllAppend(before, subst, c, subst);
    ReplaceAllAppend(before + [c], after, c, subst);
    ReplaceAllAppend(before, [c], c, subst);
    ReplaceAllAbsent(subst, c, subst);
    ReplaceAllOne(c, subst);
    OccurrencesAppend(before + subst, after, c);
    OccurrencesAppend(before, subst, c);
    OccurrencesAppend(before + [c], after, c);
    OccurrencesAppend(before, [c], c);
    NoOccurrence(subst, c);
    OneOccurrence(c);
  }

  // The ampersand loop: the replacement contains an ampersand, so the search resumes behind it.
  method ReplaceAmpersands(input: string) returns (s: string)
    ensures s == ReplaceAll(input, '&', AMP)
  {
    hide ReplaceAll, Occurrences, Find;
    s := input;
    var from := 0;
    var pos := Find(s, '&', from);
    assert s[..0] == "" && s[0..] == s;
    while pos != |s|
      invariant from <= |s| && pos == Find(s, '&', from)
      invariant s[..from] + ReplaceAll(s[from..], '&', AMP) == ReplaceAll(input, '&', AMP)
      decreases Occurrences(s[from..], '&')
    {
      var start, after := s[from..pos], s[pos + 1..];
      AmpersandStep(start, after);
      assert s[from..] == start + "&" + after;
      assert s[..pos] == s[..from] + start;
      var longer := s[..pos] + AMP + after;
      assert longer[..pos + 4] == s[..from] + (start + "&amp");
      assert longer[pos + 4..] == ";" + after;
      s := longer;
      from := pos + 4;
      pos := Find(s, '&', from);
    }
    assert s[from..pos] == s[from..];
    ReplaceAllAbsent(s[from..], '&', AMP);
    assert s[..from] + s[from..] == s;
  }

  lemma AmpersandStep(start: string, after: string)
    requires '&' !in start
    ensures ReplaceAll(start + "&" + after, '&', AMP) == (start + "&amp") + ReplaceAll(";" + after, '&', AMP)
    ensures Occurrences(";" + after, '&') < Occurrences(start + "&" + after, '&')
  {
    hide ReplaceAll, Occurrences;
    ReplaceAllAppend(start + "&", after, '&', AMP);
    ReplaceAllAppend(start, "&", '&', AMP);
    ReplaceAllAppend(";", after, '&', AMP);
    ReplaceAllAbsent(start, '&', AMP);
    ReplaceAllAbsent(";", '&', AMP);
    ReplaceAllOne('&', AMP);
    assert AMP == "&amp" + ";";
    OccurrencesAppend(start + "&", after, '&');
    OccurrencesAppend(start, "&", '&');
    OccurrencesAppend(";", after, '&');
    NoOccurrence(";", '&');
    OneOccurrence('&');
  }

  // The apostrophe pass; prev is the character before s.
  function Apostrophes(prev: Option<char>, s: string): string
    decreases |s|
  {
    if s == "" then ""
    else
      (if s[0] == '\'' && !KeepsApostrophe(prev, s[1..]) then APOS else [s[0]]) + Apostrophes(Some(s[0]), s[1..])
  }

  // All that matters of the character before is whether it is '='.
  lemma ApostrophesPrev(p: Option<char>, q: Option<char>, s: string)
    requires p == Some('=') <==> q == Some('=')
    ensures Apostrophes(p, s) == Apostrophes(q, s)
  {
  }

  function Before(prev: Option<char>, s: string): Option<char>
  {
    if s == "" then prev else Some(s[|s| - 1])
  }

  lemma {:induction false} ApostrophesFree(prev: Option<char>, s: string, t: string)
    requires '\'' !in s
    ensures Apostrophes(prev, s + t) == s + Apostrophes(Before(prev, s), t)
    decreases |s|
  {
    if s == "" {
      assert s + t == t && s + Apostrophes(prev, t) == Apostrophes(prev, t);
    } else {
      assert (s + t)[1..] == s[1..] + t;
      ApostrophesFree(Some(s[0]), s[1..], t);
      assert Before(Some(s[0]), s[1..]) == Before(prev, s);
      assert [s[0]] + (s[1..] + Apostrophes(Before(prev, s), t)) == s + Apostrophes(Before(prev, s), t);
    }
  }

  lemma ApostropheHead(prev: Option<char>, after: string)
    ensures Apostrophes(prev, "'" + after)
      == (if KeepsApostrophe(prev, after) then "'" else APOS) + Apostrophes(Some('\''), after)
  {
    assert ("'" + after)[1..] == after;
  }

  // The part of the string before the search position is final.
  ghost predicate Progress(outside: Option<char>, input: string, done: string, left: string)
  {
    done + Apostrophes(Before(outside, done), left) == Apostrophes(outside, input)
  }

  lemma ProgressStarts(outside: Option<char>, input: string)
    ensures Progress(outside, input, input[..0], input[0..])
  {
    assert input[0..] == input && "" + Apostrophes(outside, input) == Apostrophes(outside, input);
  }

  lemma ProgressEnds(outside: Option<char>, input: string, done: string, left: string)
    requires Progress(outside, input, done, left) && '\'' !in left
    ensures done + left == Apostrophes(outside, input)
  {
    ApostrophesNone(Before(outside, done), left);
  }

  // One round of the loop, with the string split as done + start + "'" + after.
  lemma ApostropheStep(outside: Option<char>, input: string, done: string, start: string, after: string)
    requires '\'' !in start && Progress(outside, input, done, start + "'" + after)
    ensures var now := Before(outside, done + start);
      if KeepsApostrophe(now, after) then Progress(outside, input, done + start + "'", after)
      else Progress(outside, input, done + start, APOS + after)
  {
    hide Apostrophes, KeepsApostrophe;
    var prev, now := Before(outside, done), Before(outside, done + start);
    assert Before(prev, start) == now by {
      if start == "" {
        assert done + start == done;
      }
    }
    LastBefore(outside, done + start + "'");
    hide Before;
    assert start + "'" + after == start + ("'" + after);
    ApostrophesFree(prev, start, "'" + after);
    ApostropheHead(now, after);
    ApostropheSkipped(now, after);
    var here := if KeepsApostrophe(now, after) then "'" else APOS;
    var tail := Apostrophes(Some('\''), after);
    assert done + (start + (here + tail)) == (done + start) + (here + tail) == (done + start + here) + tail;
  }

  // What the pass does once it has put an entity in.
  lemma ApostropheSkipped(now: Option<char>, after: string)
    ensures Apostrophes(now, APOS + after) == APOS + Apostrophes(Some('\''), after)
  {
    ApostrophesFree(now, APOS, after);
    ApostrophesPrev(Some(';'), Some('\''), after);
  }

  lemma ApostropheCount(start: string, after: string)
    requires '\'' !in start
    ensures Occurrences(start + "'" + after, '\'') == 1 + Occurrences(after, '\'')
    ensures Occurrences(APOS + after, '\'') == Occurrences(after, '\'')
  {
    OccurrencesAppend(start + "'", after, '\'');
    OccurrencesAppend(start, "'", '\'');
    OccurrencesAppend(APOS, after, '\'');
    NoOccurrence(start, '\'');
    NoOccurrence(APOS, '\'');
    assert Occurrences("'", '\'') == 1 + Occurrences("'"[1..], '\'');
  }

  // The character in front of position pos.
  function InFront(outside: Option<char>, s: string, pos: nat): Option<char>
    requires pos <= |s|
  {
    if pos == 0 then outside else Some(s[pos - 1])
  }

  lemma ApostropheRound(outside: Option<char>, input: string, s: string, from: nat, pos: nat)
    requires from <= pos < |s| && s[pos] == '\'' && '\'' !in s[from..pos]
    requires Progress(outside, input, s[..from], s[from..])
    ensures if InFront(outside, s, pos) != Some('=') && (pos + 1 == |s| || s[pos + 1] != ' ') && pos != |s| - 1 then
        var longer := s[..pos] + APOS + s[pos + 1..];
        && Progress(outside, input, longer[..pos], longer[pos..])
        && Occurrences(longer[pos..], '\'') < Occurrences(s[from..], '\'')
      else
        && Progress(outside, input, s[..pos + 1], s[pos + 1..])
        && Occurrences(s[pos + 1..], '\'') < Occurrences(s[from..], '\'')
  {
    hide Apostrophes, Occurrences, Before, Progress, KeepsApostrophe, InFront;
    var start, done, after := s[from..pos], s[..pos], s[pos + 1..];
    SplitAt(s, from, pos);
    ApostropheStep(outside, input, s[..from], start, after);
    ApostropheCount(start, after);
    KeepsAt(outside, s, pos);
    Cut(done, "'", after);
    Cut(done, APOS, after);
  }

  // What the loop looks at decides whether the apostrophe is kept.
  lemma KeepsAt(outside: Option<char>, s: string, pos: nat)
    requires pos < |s|
    ensures KeepsApostrophe(Before(outside, s[..pos]), s[pos + 1..]) <==>
      !(InFront(outside, s, pos) != Some('=') && (pos + 1 == |s| || s[pos + 1] != ' ') && pos != |s| - 1)
  {
  }

  // The apostrophe loop looks at the neighbours in the string as changed so far. In front of an apostrophe at
  // the very start it reads what lies outside of the string.
  method ReplaceApostrophes(input: string, outside: Option<char>) returns (s: string)
    ensures s == Apostrophes(outside, input)
  {
    hide Apostrophes, Occurrences, Before, Progress, Find;
    s := input;
    var from := 0;
    var pos := Find(s, '\'', from);
    ProgressStarts(outside, input);
    while pos != |s|
      invariant 0 <= from <= |s| && pos == Find(s, '\'', from)
      invariant Progress(outside, input, s[..from], s[from..])
      decreases Occurrences(s[from..], '\'')
    {
      ApostropheRound(outside, input, s, from, pos);
      if InFront(outside, s, pos) != Some('=') && (pos + 1 == |s| || s[pos + 1] != ' ') && pos != |s| - 1 {
        s := s[..pos] + APOS + s[pos + 1..];
        from := pos;
      } else {
        from := pos + 1;
      }
      pos := Find(s, '\'', from);
    }
    assert s[from..pos] == s[from..];
    ProgressEnds(outside, input, s[..from], s[from..]);
    assert s[..from] + s[from..] == s;
  }

  lemma LastBefore(outside: Option<char>, s: string)
    ensures Before(outside, s) == if s == "" then outside else Some(s[|s| - 1])
  {
  }

  lemma Cut(a: string, b: string, c: string)
    ensures (a + b + c)[..|a|] == a && (a + b + c)[|a|..] == b + c
    ensures (a + b + c)[..|a| + |b|] == a + b && (a + b + c)[|a| + |b|..] == c
    ensures "" + c == c
  {
  }

  lemma SplitAt(s: string, from: nat, pos: nat)
    requires from <= pos < |s| && s[pos] == '\''
    ensures s[from..] == s[from..pos] + "'" + s[pos + 1..]
    ensures s[..pos] == s[..from] + s[from..pos]
    ensures s == s[..pos] + "'" + s[pos + 1..]
  {
  }

  lemma ApostrophesNone(prev: Option<char>, s: string)
    requires '\'' !in s
    ensures Apostrophes(prev, s) == s
  {
    ApostrophesFree(prev, s, "");
    assert s + "" == s;
  }

  // write_xml. What lies outside matters only for a string that starts with an apostrophe.
  method WriteXml(input: string, outside: Option<char>) returns (s: string)
    ensures s == EscapeFrom(outside, input)
    ensures !(['\''] <= input) ==> s == Escape(input)
  {
    s := ReplaceAmpersands(input);
    s := ReplaceUntilGone(s, '"', QUOT);
    PassesAreSubstitution(outside, outside, input);
    OutsideIgnored(outside, input);
    s := ReplaceApostrophes(s, outside);
    s := ReplaceUntilGone(s, '<', LT);
    s := ReplaceUntilGone(s, '>', GT);
  }

  lemma OutsideIgnored(outside: Option<char>, s: string)
    ensures !(['\''] <= s) ==> EscapeFrom(outside, s) == Escape(s)
  {
  }

  // ---- Five passes are one substitution. ----

  function TwoPasses(s: string): string
  {
    ReplaceAll(ReplaceAll(s, '&', AMP), '"', QUOT)
  }

  function LastPasses(s: string): string
  {
    ReplaceAll(ReplaceAll(s, '<', LT), '>', GT)
  }

  lemma {:induction false} PassesAreSubstitution(prev: Option<char>, prev': Option<char>, s: string)
    requires prev == Some('=') <==> prev' == Some('=')
    ensures LastPasses(Apostrophes(prev', TwoPasses(s))) == EscapeFrom(prev, s)
    ensures s == "" <==> TwoPasses(s) == ""
    ensures s != "" ==> (TwoPasses(s)[0] == ' ' <==> s[0] == ' ') && (TwoPasses(s)[0] == '\'' <==> s[0] == '\'')
    decreases |s|
  {
    if s == "" {
    } else {
      var c, rest := s[0], s[1..];
      var piece := TwoPasses([c]);
      TwoPassesStep(c, rest);
      assert s == [c] + rest;
      var last := if piece == [c] then c else ';';
      PassesAreSubstitution(Some(c), Some(last), rest);
      PieceStep(prev, prev', c, rest, piece, TwoPasses(rest));
    }
  }

  // The last three passes on the first character, as the first two left it.
  lemma PieceStep(prev: Option<char>, prev': Option<char>, c: char, rest: string, piece: string, after: string)
    requires prev == Some('=') <==> prev' == Some('=')
    requires piece == if c == '&' then AMP else if c == '"' then QUOT else [c]
    requires rest == "" <==> after == ""
    requires rest != "" ==> (after[0] == ' ' <==> rest[0] == ' ')
    ensures var last := if piece == [c] then c else ';';
      LastPasses(Apostrophes(prev', piece + after))
      == Substitute(prev, c, rest) + LastPasses(Apostrophes(Some(last), after))
  {
    hide Apostrophes, LastPasses;
    var last := if piece == [c] then c else ';';
    var tail := Apostrophes(Some(last), after);
    if c == '\'' {
      ApostropheHead(prev', after);
      var here := if KeepsApostrophe(prev', after) then "'" else APOS;
      LastPassesAppend(here, tail);
      LastPassesAbsent(here);
    } else {
      ApostrophesFree(prev', piece, after);
      LastPassesAppend(piece, tail);
      if c == '&' || c == '"' {
        LastPassesAbsent(piece);
      } else {
        LastPassesOne(c);
      }
    }
  }

  lemma TwoPassesStep(c: char, rest: string)
    ensures TwoPasses([c] + rest) == TwoPasses([c]) + TwoPasses(rest)
    ensures TwoPasses([c]) == if c == '&' then AMP else if c == '"' then QUOT else [c]
  {
    ReplaceAllAppend([c], rest, '&', AMP);
    ReplaceAllAppend(ReplaceAll([c], '&', AMP), ReplaceAll(rest, '&', AMP), '"', QUOT);
    OnePass(c, '&', AMP);
    OnePass(c, '"', QUOT);
    ReplaceAllAbsent(AMP, '"', QUOT);
  }

  lemma OnePass(c: char, d: char, subst: string)
    ensures ReplaceAll([c], d, subst) == if c == d then subst else [c]
  {
    assert [c][1..] == "";
    assert ReplaceAll([c], d, subst) == (if c == d then subst else [c]) + ReplaceAll("", d, subst);
  }

  lemma LastPassesAppend(s: string, t: string)
    ensures LastPasses(s + t) == LastPasses(s) + LastPasses(t)
  {
    hide ReplaceAll;
    ReplaceAllAppend(s, t, '<', LT);
    ReplaceAllAppend(ReplaceAll(s, '<', LT), ReplaceAll(t, '<', LT), '>', GT);
  }

  lemma LastPassesOne(c: char)
    ensures LastPasses([c]) == if c == '<' then LT else if c == '>' then GT else [c]
  {
    OnePass(c, '<', LT);
    OnePass(c, '>', GT);
    ReplaceAllAbsent(LT, '>', GT);
  }

  lemma LastPassesAbsent(s: string)
    requires '<' !in s && '>' !in s
    ensures LastPasses(s) == s
  {
    hide ReplaceAll;
    ReplaceAllAbsent(s, '<', LT);
    ReplaceAllAbsent(s, '>', GT);
  }
}
