// init_lexInfo of squoia_xfer_lex.cc: comment removal, the whitespace loop that edits a line in place,
// and the split of the line into a key and a value.
module LexInfo {
  import opened Options
  import opened Strings

  predicate IsBlank(c: char)
  {
    c == ' ' || c == '\t'
  }

  // Length of the run of blanks at the start.
  function BlankRun(s: string): (k: nat)
    ensures k <= |s| && (forall i :: 0 <= i < k ==> IsBlank(s[i])) && (k < |s| ==> !IsBlank(s[k]))
  {
    if s == "" || !IsBlank(s[0]) then 0 else 1 + BlankRun(s[1..])
  }

  // Run by run: a lone space stays, every other run of blanks becomes one tab.
  function Squeeze(s: string): string
    decreases |s|
  {
    if s == "" then ""
    else if !IsBlank(s[0]) then [s[0]] + Squeeze(s[1..])
    else
      var k := BlankRun(s);
      (if s[..k] == " " then " " else "\t") + Squeeze(s[k..])
  }

  function SkipBlanks(s: string): string
  {
    s[BlankRun(s)..]
  }

  // Blanks at the start of the line vanish.
  function Normalised(s: string): string
  {
    Squeeze(SkipBlanks(s))
  }

  function WithoutLastBlank(s: string): string
  {
    if s != "" && IsBlank(s[|s| - 1]) then s[..|s| - 1] else s
  }

  // ---- The loop. ----

  // What becomes of the part of the line from the index on: blanks at the start of the line and
  // behind a tab are erased.
  function Later(done: string, rest: string): string
  {
    if done == "" || done[|done| - 1] == '\t' then Squeeze(SkipBlanks(rest)) else Squeeze(rest)
  }

  ghost predicate OnTrack(line: string, s: string, i: nat)
    requires i <= |s|
  {
    s[..i] + Later(s[..i], s[i..]) == Normalised(line)
  }

  lemma TrackStarts(line: string)
    ensures OnTrack(line, line, 0)
  {
    assert line[0..] == line && "" + Normalised(line) == Normalised(line);
  }

  lemma TrackEnds(line: string, s: string)
    requires OnTrack(line, s, |s|)
    ensures s == Normalised(line)
  {
    assert s[|s|..] == "" && s[..|s|] == s && s + "" == s;
    assert Later(s, "") == "";
  }

  // The first test of the loop body.
  function Marked(s: string, i: nat): string
    requires i < |s|
  {
    if s[i] == ' ' && i + 1 < |s| && IsBlank(s[i + 1]) then s[i := '\t'] else s
  }

  lemma SkipOne(s: string)
    requires s != "" && IsBlank(s[0])
    ensures SkipBlanks(s) == SkipBlanks(s[1..])
  {
  }

  // Whether the first blank of the rest is erased, kept as it is, or kept as a tab.
  lemma LaterStep(done: string, rest: string)
    requires rest != ""
    ensures var c, tail := Marked(rest, 0)[0], rest[1..];
      if IsBlank(c) && (done == "" || done[|done| - 1] == '\t') then Later(done, rest) == Later(done, tail)
      else Later(done, rest) == [c] + Later(done + [c], tail)
  {
    var tail := rest[1..];
    if IsBlank(rest[0]) {
      SkipOne(rest);
      var k := BlankRun(rest);
      assert k == 1 + BlankRun(tail);
      assert rest[k..] == SkipBlanks(rest);
      if k == 1 {
        assert tail == "" || !IsBlank(tail[0]);
        assert rest[..1] == [rest[0]] && SkipBlanks(tail) == tail;
      } else {
        assert IsBlank(tail[0]) && rest[..k] != " ";
      }
    } else {
      assert SkipBlanks(rest) == rest;
    }
  }

  lemma TrackStep(line: string, s: string, i: nat)
    requires i < |s| && OnTrack(line, s, i)
    ensures var t := Marked(s, i);
      if IsBlank(t[i]) && (i == 0 || t[i - 1] == '\t') then OnTrack(line, t[..i] + t[i + 1..], i)
      else OnTrack(line, t, i + 1)
  {
    hide Later, Normalised;
    var t := Marked(s, i);
    var done, rest := s[..i], s[i..];
    LaterStep(done, rest);
    assert Marked(rest, 0)[0] == t[i] && rest[1..] == s[i + 1..];
    assert t[..i] == done && t[i + 1..] == s[i + 1..];
    if IsBlank(t[i]) && (i == 0 || t[i - 1] == '\t') {
      var erased := t[..i] + t[i + 1..];
      assert erased[..i] == done && erased[i..] == rest[1..];
    } else {
      assert t[..i + 1] == done + [t[i]];
      assert done + ([t[i]] + Later(done + [t[i]], rest[1..])) == t[..i + 1] + Later(t[..i + 1], t[i + 1..]);
    }
  }

  // The whitespace loop and the cut that follows it. Looking at the last character of an empty line
  // is undefined in the source; here it is no blank.
  method CleanLine(line: string) returns (lerro: string)
    ensures lerro == WithoutLastBlank(Normalised(line))
  {
    hide OnTrack, Normalised;
    lerro := line;
    var i := 0;
    TrackStarts(line);
    while i < |lerro|
      invariant 0 <= i <= |lerro| && OnTrack(line, lerro, i)
      decreases |lerro| - i
    {
      TrackStep(line, lerro, i);
      if lerro[i] == ' ' && i + 1 < |lerro| && (lerro[i + 1] == ' ' || lerro[i + 1] == '\t') {
        lerro := lerro[i := '\t'];
      }
      if (lerro[i] == ' ' || lerro[i] == '\t') && (i == 0 || lerro[i - 1] == '\t') {
        lerro := lerro[..i] + lerro[i + 1..];
        i := i - 1;
      }
      i := i + 1;
    }
    TrackEnds(line, lerro);
    if |lerro| > 0 && (lerro[|lerro| - 1] == ' ' || lerro[|lerro| - 1] == '\t') {
      lerro := lerro[..|lerro| - 1];
    }
  }

  // ---- What a line means. ----

  function ParsedLine(line: string): Option<(string, string)>
  {
    var clean := WithoutLastBlank(Normalised(line[..Find(line, '#', 0)]));
    var pos := Find(clean, '\t', 0);
    if pos == |clean| then None else Some((clean[..pos], clean[pos + 1..]))
  }

  function Table(lines: seq<string>): map<string, string>
  {
    if lines == [] then map[]
    else
      var n := |lines| - 1;
      var pair := ParsedLine(lines[n]);
      if pair == None then Table(lines[..n]) else Table(lines[..n])[pair.value.0 := pair.value.1]
  }

  method InitLexInfo(lines: seq<string>) returns (info: map<string, string>)
    ensures info == Table(lines)
  {
    hide Normalised, WithoutLastBlank;
    info := map[];
    for n := 0 to |lines|
      invariant info == Table(lines[..n])
    {
      assert lines[..n + 1][..n] == lines[..n];
      var lerro := lines[n][..Find(lines[n], '#', 0)];
      lerro := CleanLine(lerro);
      var pos := Find(lerro, '\t', 0);
      if pos != |lerro| {
        var key, value := lerro[..pos], lerro[pos + 1..];
        info := info[key := value];
      }
    }
    assert lines[..|lines|] == lines;
  }

  // ---- Keys and values are read back whatever the spacing around them. ----

  // Words separated by single spaces, without comment sign.
  ghost predicate IsPhrase(s: string)
  {
    && s != "" && !IsBlank(s[0]) && !IsBlank(s[|s| - 1])
    && '\t' !in s && '#' !in s
    && forall i :: 0 <= i < |s| - 1 ==> !(s[i] == ' ' && s[i + 1] == ' ')
  }

  ghost predicate AllBlank(s: string)
  {
    forall i :: 0 <= i < |s| ==> IsBlank(s[i])
  }

  // The rest of a phrase, from any place.
  ghost predicate IsPhraseTail(s: string)
  {
    && '\t' !in s
    && (s != "" ==> !IsBlank(s[|s| - 1]))
    && forall i :: 0 <= i < |s| - 1 ==> !(s[i] == ' ' && s[i + 1] == ' ')
  }

  lemma {:induction false} SqueezePhrase(s: string, rest: string)
    requires IsPhraseTail(s)
    ensures Squeeze(s + rest) == s + Squeeze(rest)
    decreases |s|
  {
    var all := s + rest;
    if s == "" {
      assert all == rest && s + Squeeze(rest) == Squeeze(rest);
    } else {
      assert all[1..] == s[1..] + rest && all[0] == s[0];
      assert s == [s[0]] + s[1..];
      SqueezePhrase(s[1..], rest);
      if s[0] == ' ' {
        assert all[1] == s[1] && !IsBlank(s[1]);
        assert BlankRun(all) == 1 + BlankRun(all[1..]) == 1;
        assert all[..1] == " ";
      }
      assert [s[0]] + (s[1..] + Squeeze(rest)) == s + Squeeze(rest);
    }
  }

  lemma {:induction false} BlankRunOf(s: string, rest: string)
    requires AllBlank(s) && (rest == "" || !IsBlank(rest[0]))
    ensures BlankRun(s + rest) == |s|
  {
    if s == "" {
      assert s + rest == rest;
    } else {
      assert (s + rest)[1..] == s[1..] + rest;
      BlankRunOf(s[1..], rest);
    }
  }

  // A line of a key and a value gives the pair, whatever blanks stand before, between and after them
  // and whatever comment follows, exactly when the separator is more than a lone space; otherwise it
  // gives nothing.
  lemma LineReadsBack(lead: string, key: string, sep: string, value: string, trail: string, comment: string)
    requires IsPhrase(key) && IsPhrase(value)
    requires AllBlank(lead) && AllBlank(sep) && AllBlank(trail)
    requires comment == "" || comment[0] == '#'
    ensures ParsedLine(lead + key + sep + value + trail + comment)
      == if sep == "" || sep == " " then None else Some((key, value))
  {
    hide Normalised, Squeeze, ParsedLine, IsPhrase;
    PhrasesHaveNoComment(lead, key, sep, value, trail);
    CommentIsIgnored(lead + key + sep + value + trail, comment);
    if sep == "" || sep == " " {
      PhrasesJoin(key, sep, value);
      var phrase := key + sep + value;
      assert lead + key + sep + value + trail == lead + phrase + trail;
      PhraseAlone(lead, phrase, trail);
    } else {
      PairReadsBack(lead, key, sep, value, trail);
    }
  }

  lemma PhrasesHaveNoComment(lead: string, key: string, sep: string, value: string, trail: string)
    requires IsPhrase(key) && IsPhrase(value)
    requires AllBlank(lead) && AllBlank(sep) && AllBlank(trail)
    ensures '#' !in lead + key + sep + value + trail
  {
  }

  lemma CommentIsIgnored(line: string, comment: string)
    requires '#' !in line && (comment == "" || comment[0] == '#')
    ensures ParsedLine(line + comment) == ParsedLine(line)
  {
    hide Normalised;
    FindBehind(line, comment, '#');
    FindBehind(line, "", '#');
    assert line + "" == line && (line + comment)[..|line|] == line && line[..|line|] == line;
  }

  lemma PhrasesJoin(key: string, sep: string, value: string)
    requires IsPhrase(key) && IsPhrase(value) && (sep == "" || sep == " ")
    ensures IsPhrase(key + sep + value)
  {
  }

  // A line that is one phrase has no tab to cut at.
  lemma PhraseAlone(lead: string, phrase: string, trail: string)
    requires IsPhrase(phrase) && AllBlank(lead) && AllBlank(trail)
    ensures ParsedLine(lead + phrase + trail) == None
  {
    hide Squeeze, IsPhraseTail, WithoutLastBlank;
    var line := lead + phrase + trail;
    NoComment(line);
    assert line == lead + (phrase + trail);
    SkipLead(lead, phrase + trail);
    PhraseIsTail(phrase);
    SqueezePhrase(phrase, trail);
    TrailSqueezed(trail);
    LastBlankCut(phrase, Squeeze(trail));
    FindBehind(phrase, "", '\t');
    assert phrase + "" == phrase;
  }

  lemma PairReadsBack(lead: string, key: string, sep: string, value: string, trail: string)
    requires IsPhrase(key) && IsPhrase(value)
    requires AllBlank(lead) && AllBlank(sep) && AllBlank(trail)
    requires sep != "" && sep != " "
    ensures ParsedLine(lead + key + sep + value + trail) == Some((key, value))
  {
    hide Normalised, Squeeze;
    var line := lead + key + sep + value + trail;
    NoComment(line);
    LineNormalised(lead, key, sep, value, trail);
    TrailSqueezed(trail);
    LastBlankCut(key + "\t" + value, Squeeze(trail));
    assert key + ("\t" + value) == key + "\t" + value;
    FirstTab(key, value);
  }

  lemma LastBlankCut(clean: string, tail: string)
    requires clean != "" && !IsBlank(clean[|clean| - 1])
    requires tail == "" || (|tail| == 1 && IsBlank(tail[0]))
    ensures WithoutLastBlank(clean + tail) == clean
  {
    if tail == "" {
      assert clean + tail == clean;
    } else {
      assert (clean + tail)[..|clean|] == clean;
    }
  }

  lemma LineNormalised(lead: string, key: string, sep: string, value: string, trail: string)
    requires IsPhrase(key) && IsPhrase(value)
    requires AllBlank(lead) && AllBlank(sep) && AllBlank(trail)
    requires sep != "" && sep != " "
    ensures Normalised(lead + key + sep + value + trail) == key + "\t" + value + Squeeze(trail)
  {
    hide Squeeze, IsPhraseTail;
    PhraseIsTail(key);
    PhraseIsTail(value);
    var end := value + trail;
    var mid := sep + end;
    Regroup(lead, key, sep, value, trail);
    SkipLead(lead, key + mid);
    SqueezePhrase(key, mid);
    SqueezeSeparator(sep, end);
    SqueezePhrase(value, trail);
    Regroup("", key, "\t", value, Squeeze(trail));
  }

  lemma PhraseIsTail(s: string)
    requires IsPhrase(s)
    ensures IsPhraseTail(s)
  {
  }

  lemma SkipLead(lead: string, rest: string)
    requires AllBlank(lead) && (rest == "" || !IsBlank(rest[0]))
    ensures SkipBlanks(lead + rest) == rest
  {
    BlankRunOf(lead, rest);
  }

  lemma Regroup(a: string, b: string, c: string, d: string, e: string)
    ensures a + b + c + d + e == a + (b + (c + (d + e)))
    ensures b + (c + (d + e)) == b + c + d + e
  {
  }

  lemma SqueezeSeparator(sep: string, end: string)
    requires AllBlank(sep) && sep != "" && sep != " " && (end == "" || !IsBlank(end[0]))
    ensures Squeeze(sep + end) == "\t" + Squeeze(end)
  {
    BlankRunOf(sep, end);
    assert (sep + end)[..|sep|] == sep && (sep + end)[|sep|..] == end;
  }

  lemma TrailSqueezed(trail: string)
    requires AllBlank(trail)
    ensures trail == "" ==> Squeeze(trail) == ""
    ensures trail != "" ==> |Squeeze(trail)| == 1 && IsBlank(Squeeze(trail)[0])
  {
    if trail != "" {
      BlankRunOf(trail, "");
      assert trail + "" == trail && trail[|trail|..] == "";
    }
  }

  lemma FirstTab(key: string, value: string)
    requires '\t' !in key
    ensures var clean := key + ("\t" + value);
      Find(clean, '\t', 0) == |key| && clean[..|key|] == key && clean[|key| + 1..] == value
  {
    FindBehind(key, "\t" + value, '\t');
  }

  lemma NoComment(line: string)
    requires '#' !in line
    ensures line[..Find(line, '#', 0)] == line
  {
    FindBehind(line, "", '#');
    assert line + "" == line;
  }

  // The cleaned line needs no more cleaning: no blank at either end, and no two blanks together.
  lemma {:induction false} SqueezedIsClean(s: string)
    requires s == "" || !IsBlank(s[0])
    ensures var r := Squeeze(s);
      && (r == "" || !IsBlank(r[0]))
      && (forall i :: 0 <= i < |r| - 1 ==> !(IsBlank(r[i]) && IsBlank(r[i + 1])))
    decreases |s|
  {
    if s == "" {
    } else {
      var tail := s[1..];
      var k := BlankRun(tail);
      SqueezedIsClean(tail[k..]);
      var later := Squeeze(tail[k..]);
      if k > 0 {
        assert IsBlank(tail[0]);
        assert Squeeze(tail) == (if tail[..k] == " " then " " else "\t") + later;
      } else {
        assert tail[k..] == tail;
      }
    }
  }

  // Line i is the last one that gives the key.
  ghost predicate IsLastLine(lines: seq<string>, key: string, i: nat)
  {
    && i < |lines| && ParsedLine(lines[i]).Some? && ParsedLine(lines[i]).value.0 == key
    && forall j :: i < j < |lines| && ParsedLine(lines[j]).Some? ==> ParsedLine(lines[j]).value.0 != key
  }

  // The table has the keys some line gives, each with the value of the last such line.
  lemma {:induction false} LastLineDecides(lines: seq<string>, key: string)
    ensures key in Table(lines) <==> exists i: nat :: IsLastLine(lines, key, i)
    ensures forall i: nat :: IsLastLine(lines, key, i) ==>
      key in Table(lines) && Table(lines)[key] == ParsedLine(lines[i]).value.1
  {
    hide ParsedLine;
    if lines == [] {
    } else {
      var n := |lines| - 1;
      LastLineDecides(lines[..n], key);
      var pair := ParsedLine(lines[n]);
      if pair.Some? && pair.value.0 == key {
        assert IsLastLine(lines, key, n);
        assert forall i: nat :: IsLastLine(lines, key, i) ==> i == n;
      } else {
        assert forall i: nat :: IsLastLine(lines, key, i) <==> IsLastLine(lines[..n], key, i);
      }
    }
  }
}
