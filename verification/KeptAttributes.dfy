// The attributes a CHUNK keeps: text_allAttrib_except cuts the text of all attributes at its spaces and
// drops the first word that begins with the name type. When that is the text of the other attributes
// (squoia_xfer_lex.cc).
module KeptAttributes {
  import opened Options
  import opened Strings
  import opened Tokens
  import opened TransferGrammar
  import opened Escaping
  import opened AttributeText
  import opened Markup
  import opened PrintedValues

  // allAttrib_except.
  function Except(attributes: Attributes, name: string): Attributes
  {
    if attributes == [] then []
    else (if attributes[0].0 == name then [] else [attributes[0]]) + Except(attributes[1..], name)
  }

  // text_allAttrib_except(text, "type").
  function KeptText(attributes: Attributes): string
  {
    Spaced(DropFirst(Runs(AttributesText(attributes), " "), "type"))
  }

  // ---- The words of a text of attributes. ----

  function WordsOf(attribute: (string, string)): seq<string>
  {
    Runs(Pair(attribute.0, attribute.1), " ")
  }

  function AllWords(attributes: Attributes): seq<string>
  {
    if attributes == [] then [] else WordsOf(attributes[0]) + AllWords(attributes[1..])
  }

  lemma {:induction false} RunsJoin(run: string, s: string, t: string)
    requires t == "" || t[0] == ' '
    ensures RunsFrom(run, s + t, " ") == RunsFrom(run, s, " ") + Runs(t, " ")
    decreases |s|
  {
    if s == "" {
      assert s + t == t;
      if t != "" {
        assert RunsFrom(run, t, " ") == (if run == "" then [] else [run]) + RunsFrom("", t[1..], " ");
      }
    } else {
      assert (s + t)[1..] == s[1..] + t && (s + t)[0] == s[0];
      RunsJoin(if s[0] == ' ' then "" else run + [s[0]], s[1..], t);
    }
  }

  lemma {:induction false} TextWords(attributes: Attributes)
    ensures Runs(AttributesText(attributes), " ") == AllWords(attributes)
  {
    if attributes == [] {
    } else {
      var (name, value) := attributes[0];
      var later := AttributesText(attributes[1..]);
      TextWords(attributes[1..]);
      var pair := Pair(name, value);
      assert AttributesText(attributes) == " " + (pair + later);
      hide Runs;
      RunsSkip(" " + (pair + later), " ");
      RunsJoinRuns(pair, later);
    }
  }

  lemma RunsJoinRuns(s: string, t: string)
    requires t == "" || t[0] == ' '
    ensures Runs(s + t, " ") == Runs(s, " ") + Runs(t, " ")
  {
    RunsJoin("", s, t);
  }

  predicate NamesType(word: string)
  {
    Fields(word) != [] && Fields(word)[0] == "type"
  }

  // The first word of an attribute has its name, and the others are words of the value.
  lemma WordsStart(name: string, value: string) returns (word: string, more: string)
    requires IsName(name) && ' ' in value
    ensures value == word + " " + more && ' ' !in word
    ensures WordsOf((name, value)) == [name + "='" + word] + Runs(more + "'", " ")
  {
    hide Runs, IsName, Free;
    word, more := CutAtSpace(value);
    NameHasNoSpace(name);
    FirstOfWords(name, word, more);
  }

  lemma CutAtSpace(value: string) returns (word: string, more: string)
    requires ' ' in value
    ensures value == word + " " + more && ' ' !in word
  {
    var k := Find(value, ' ', 0);
    assert value[0..k] == value[..k];
    word, more := value[..k], value[k + 1..];
  }

  lemma OneWord(name: string, value: string)
    requires Free(name, " ") && ' ' !in value
    ensures Runs(Pair(name, value), " ") == [Pair(name, value)]
  {
    hide Runs;
    RunsOfOne(Pair(name, value), " ");
  }

  lemma FirstOfWords(name: string, word: string, more: string)
    requires Free(name, " ") && ' ' !in word
    ensures Runs(Pair(name, word + " " + more), " ") == [name + "='" + word] + Runs(more + "'", " ")
  {
    hide Runs;
    var first := name + "='" + word;
    assert Pair(name, word + " " + more) == first + (" " + (more + "'"));
    assert (" " + (more + "'"))[1..] == more + "'";
    StartIsFree(name, word);
    RunsOfCons(first, " " + (more + "'"), " ");
  }

  lemma StartIsFree(name: string, word: string)
    requires Free(name, " ") && ' ' !in word
    ensures Free(name + "='" + word, " ")
  {
  }

  lemma NameHasNoSpace(name: string)
    requires IsName(name)
    ensures Free(name, " ") && Free(name, "=") && name != ""
  {
  }

  lemma StartNamesType(name: string, more: string)
    requires IsName(name)
    ensures NamesType(name + "=" + more) <==> name == "type"
  {
    NameHasNoSpace(name);
    assert name + "=" + more == name + ("=" + more);
    RunsOfCons(name, "=" + more, "=");
  }

  lemma FirstWordNames(name: string, value: string)
    requires IsName(name)
    ensures WordsOf((name, value)) != []
    ensures NamesType(WordsOf((name, value))[0]) <==> name == "type"
    ensures |WordsOf((name, value))| == 1 <==> ' ' !in value
    ensures ' ' !in value ==> WordsOf((name, value)) == [Pair(name, value)]
  {
    hide Runs, NamesType;
    if ' ' in value {
      var word, more := WordsStart(name, value);
      StartNamesType(name, "'" + word);
      assert name + "='" + word == name + "=" + ("'" + word);
      SomeRun(more);
    } else {
      NameHasNoSpace(name);
      OneWord(name, value);
      StartNamesType(name, "'" + value + "'");
      assert Pair(name, value) == name + "=" + ("'" + value + "'");
    }
  }

  lemma SomeRun(s: string)
    ensures Runs(s + "'", " ") != []
  {
    RunsAreFree("", s + "'", " ");
    WithoutAppend(s, "'", " ");
    assert Without("'", " ") == "'" + Without("'"[1..], " ");
  }

  // ---- No word of another attribute looks like the attribute type, when its value is safe. ----

  lemma {:induction false} RunIsPart(run: string, s: string, word: string) returns (before: string, behind: string)
    requires word in RunsFrom(run, s, " ")
    ensures run + s == before + word + behind
    decreases |s|
  {
    if s == "" {
      before, behind := "", "";
      assert run + s == run;
    } else if s[0] == ' ' {
      if run != "" && word == run {
        before, behind := "", s;
      } else {
        before, behind := RunIsPart("", s[1..], word);
        before := run + " " + before;
        assert run + s == run + " " + ("" + s[1..]);
      }
    } else {
      before, behind := RunIsPart(run + [s[0]], s[1..], word);
      assert run + [s[0]] + s[1..] == run + s;
    }
  }

  lemma NoTypeWord(name: string, value: string, word: string, typeValue: string)
    requires IsName(name) && name != "type" && ListedSafe(value) && word in WordsOf((name, value))
    ensures word != Pair("type", typeValue)
  {
    hide Runs, Fields, NamesType, ListedSafe;
    FirstWordNames(name, value);
    TypePairNames(typeValue);
    if ' ' in value {
      var first, more := WordsStart(name, value);
      assert value[|first| + 1..] == more;
      TypeInside(value, |first| + 1, typeValue);
    }
  }

  lemma TypePairNames(typeValue: string)
    ensures NamesType(Pair("type", typeValue))
  {
    StartNamesType("type", "'" + typeValue + "'");
    assert Pair("type", typeValue) == "type" + "=" + ("'" + typeValue + "'");
  }

  lemma TypeInside(value: string, k: nat, typeValue: string)
    requires k <= |value|
    ensures Pair("type", typeValue) in Runs(value[k..] + "'", " ") ==> !ListedSafe(value)
  {
    var word, s := Pair("type", typeValue), value[k..] + "'";
    if word in Runs(s, " ") {
      var before, behind := RunIsPart("", s, word);
      assert s == before + word + behind;
      var i := |before| + 5;
      assert word[4] == '=' && word[5] == '\'' && |word| > 6;
      assert s[i - 1] == word[4] && s[i] == word[5] && i < |value[k..]|;
      assert value[k + i - 1] == '=' && value[k + i] == '\'';
      assert Boundary(value, k + i);
    }
  }

  // ---- Spacing. ----

  ghost predicate SingleSpaced(s: string)
  {
    forall i :: 0 <= i < |s| - 1 ==> !(s[i] == ' ' && s[i + 1] == ' ')
  }

  ghost predicate AreWords(words: seq<string>)
  {
    forall i :: 0 <= i < |words| ==> words[i] != "" && Free(words[i], " ")
  }

  // Words with a space in front of each.
  lemma {:induction false} SpacedIsSingle(words: seq<string>)
    requires AreWords(words)
    ensures SingleSpaced(Spaced(words))
    ensures Spaced(words) != "" ==> Spaced(words)[|Spaced(words)| - 1] != ' '
    ensures words != [] ==> Spaced(words) != "" && Spaced(words)[0] == ' '
  {
    if words == [] {
    } else {
      var n := |words| - 1;
      SpacedIsSingle(words[..n]);
      var before := Spaced(words[..n]);
      assert Spaced(words) == before + " " + words[n];
    }
  }

  lemma {:induction false} SpacedAppend(us: seq<string>, vs: seq<string>)
    ensures Spaced(us + vs) == Spaced(us) + Spaced(vs)
  {
    if vs == [] {
      assert us + vs == us;
    } else {
      var k := |vs| - 1;
      SpacedAppend(us, vs[..k]);
      assert (us + vs)[..|us + vs| - 1] == us + vs[..k];
    }
  }

  lemma SpacedCons(word: string, words: seq<string>)
    ensures Spaced([word] + words) == " " + word + Spaced(words)
  {
    SpacedAppend([word], words);
    assert [word][..0] == [];
  }

  // A text that begins and ends with no space and has no two together is its words.
  lemma {:induction false} SpacedRuns(run: string, s: string)
    requires Free(run, " ") && SingleSpaced(s) && (s != "" ==> s[|s| - 1] != ' ')
    requires run == "" ==> s != "" && s[0] != ' '
    ensures Spaced(RunsFrom(run, s, " ")) == " " + (run + s)
    decreases |s|
  {
    if s == "" {
      SpacedCons(run, []);
      assert [run] + [] == [run] && run + s == run && " " + run + Spaced([]) == " " + run;
    } else if s[0] == ' ' {
      var later := s[1..];
      assert later != "" && later[0] == s[1] && forall i :: 0 <= i < |later| ==> later[i] == s[i + 1];
      SpacedRuns("", later);
      SpacedCons(run, RunsFrom("", later, " "));
      assert " " + run + (" " + ("" + later)) == " " + (run + s);
    } else {
      assert forall i :: 0 <= i < |s[1..]| ==> s[1..][i] == s[i + 1];
      SpacedRuns(run + [s[0]], s[1..]);
      assert run + [s[0]] + s[1..] == run + s;
    }
  }

  // ---- When the kept text is the text of the other attributes. ----

  // Another word of the value than the first begins with the name type.
  ghost predicate MentionsType(attribute: (string, string))
  {
    exists j :: 1 <= j < |WordsOf(attribute)| && NamesType(WordsOf(attribute)[j])
  }

  ghost predicate ComesBeforeType(attributes: Attributes, i: nat)
    requires i < |attributes|
  {
    forall j :: 0 <= j <= i ==> attributes[j].0 != "type"
  }

  ghost predicate WellKept(attributes: Attributes, i: nat)
    requires i < |attributes|
  {
    var (name, value) := attributes[i];
    if name == "type" then ' ' !in value
    else
      && ListedSafe(value) && SingleSpaced(value)
      && (ComesBeforeType(attributes, i) ==> !MentionsType(attributes[i]))
  }

  // What can be seen of the attributes: the value of type is one word, the others have no apostrophe at a
  // boundary and no two spaces together, and none before type has a word that begins with that name.
  ghost predicate AllWellKept(attributes: Attributes)
  {
    forall i: nat :: i < |attributes| ==> WellKept(attributes, i)
  }

  ghost predicate AllListedSafe(attributes: Attributes)
  {
    forall i :: 0 <= i < |attributes| ==> ListedSafe(attributes[i].1)
  }

  lemma {:induction false} ExceptIs(attributes: Attributes, name: string)
    ensures forall x :: x in Except(attributes, name) <==> x in attributes && x.0 != name
  {
    if attributes == [] {
    } else {
      ExceptIs(attributes[1..], name);
      assert attributes == [attributes[0]] + attributes[1..];
    }
  }

  lemma {:induction false} ExceptNames(attributes: Attributes, name: string)
    ensures HasNames(attributes) ==> HasNames(Except(attributes, name))
    ensures IsDistinct(attributes) ==> IsDistinct(Except(attributes, name))
  {
    hide IsName;
    if attributes == [] {
    } else {
      ExceptNames(attributes[1..], name);
      ExceptIs(attributes[1..], name);
      var first, later := attributes[0], Except(attributes[1..], name);
      if IsDistinct(attributes) {
        forall j | 0 <= j < |later|
          ensures later[j].0 != first.0
        {
          assert later[j] in attributes[1..];
        }
      }
    }
  }

  lemma {:induction false} ExceptAbsent(attributes: Attributes, name: string)
    requires forall i :: 0 <= i < |attributes| ==> attributes[i].0 != name
    ensures Except(attributes, name) == attributes
  {
    if attributes == [] {
    } else {
      ExceptAbsent(attributes[1..], name);
      assert attributes == [attributes[0]] + attributes[1..];
    }
  }

  lemma NoneDropped(words: seq<string>, later: seq<string>)
    requires forall i :: 0 <= i < |words| ==> !NamesType(words[i])
    ensures DropFirst(words + later, "type") == words + DropFirst(later, "type")
    decreases |words|
  {
    hide NamesType, DropFirst;
    if words == [] {
      assert words + later == later && words + DropFirst(later, "type") == DropFirst(later, "type");
    } else {
      assert words == [words[0]] + words[1..] && words + later == [words[0]] + (words[1..] + later);
      NoneDropped(words[1..], later);
      DropOne(words[0], words[1..] + later);
    }
  }

  lemma DropOne(word: string, words: seq<string>)
    ensures DropFirst([word] + words, "type") == if NamesType(word) then words else [word] + DropFirst(words, "type")
  {
    assert ([word] + words)[1..] == words;
  }

  lemma {:induction false} OtherWords(attributes: Attributes)
    requires HasNames(attributes) && IsDistinct(attributes) && AllWellKept(attributes)
    ensures DropFirst(AllWords(attributes), "type") == AllWords(Except(attributes, "type"))
  {
    hide NamesType, Fields, WordsOf, IsName, ListedSafe, SingleSpaced, MentionsType;
    if attributes == [] {
    } else {
      var first, later := attributes[0], attributes[1..];
      assert IsName(first.0) && WellKept(attributes, 0);
      FirstWordNames(first.0, first.1);
      assert (first.0, first.1) == first;
      if first.0 == "type" {
        assert forall i :: 0 <= i < |later| ==> later[i].0 != "type" by {
          assert forall i :: 0 <= i < |later| ==> later[i] == attributes[i + 1];
        }
        ExceptAbsent(later, "type");
        FirstDropped(WordsOf(first)[0], AllWords(later));
        assert [] + later == later && [WordsOf(first)[0]] == WordsOf(first);
      } else {
        LaterWellKept(attributes);
        OtherWords(later);
        MentionsNot(first);
        NoneDropped(WordsOf(first), AllWords(later));
        assert ([first] + Except(later, "type"))[1..] == Except(later, "type");
      }
    }
  }

  lemma FirstDropped(word: string, words: seq<string>)
    requires NamesType(word)
    ensures DropFirst([word] + words, "type") == words
  {
    DropOne(word, words);
  }

  lemma MentionsNot(attribute: (string, string))
    requires !MentionsType(attribute) && WordsOf(attribute) != [] && !NamesType(WordsOf(attribute)[0])
    ensures forall j :: 0 <= j < |WordsOf(attribute)| ==> !NamesType(WordsOf(attribute)[j])
  {
    hide NamesType, WordsOf;
  }

  lemma LaterWellKept(attributes: Attributes)
    requires attributes != [] && attributes[0].0 != "type"
    requires HasNames(attributes) && IsDistinct(attributes) && AllWellKept(attributes)
    ensures HasNames(attributes[1..]) && IsDistinct(attributes[1..]) && AllWellKept(attributes[1..])
  {
    hide IsName, ListedSafe, SingleSpaced, MentionsType;
    var later := attributes[1..];
    assert forall i :: 0 <= i < |later| ==> later[i] == attributes[i + 1];
    forall i: nat | i < |later|
      ensures WellKept(later, i)
    {
      assert WellKept(attributes, i + 1);
      assert ComesBeforeType(later, i) ==> ComesBeforeType(attributes, i + 1);
    }
  }

  // Well kept attributes leave the text of the others.
  lemma {:induction false} SpacedText(attributes: Attributes)
    requires HasNames(attributes) && forall i :: 0 <= i < |attributes| ==> SingleSpaced(attributes[i].1)
    ensures Spaced(AllWords(attributes)) == AttributesText(attributes)
  {
    hide IsName, SingleSpaced;
    if attributes == [] {
    } else {
      var (name, value) := attributes[0];
      SpacedText(attributes[1..]);
      SpacedAppend(WordsOf(attributes[0]), AllWords(attributes[1..]));
      PairIsSpaced(name, value);
      assert " " + (name + "='" + value + "'") == " " + name + "='" + value + "'";
    }
  }

  lemma PairIsSpaced(name: string, value: string)
    requires IsName(name) && SingleSpaced(value)
    ensures Spaced(WordsOf((name, value))) == " " + Pair(name, value)
  {
    hide SingleSpaced, IsName, Spaced, RunsFrom;
    var pair := Pair(name, value);
    PairIsSingle(name, value);
    SpacedRuns("", pair);
    assert "" + pair == pair;
  }

  lemma PairIsSingle(name: string, value: string)
    requires IsName(name) && SingleSpaced(value)
    ensures var pair := Pair(name, value);
      SingleSpaced(pair) && pair[0] != ' ' && pair[|pair| - 1] == '\''
  {
    var pair, n := Pair(name, value), |name|;
    assert forall i :: n + 2 <= i < |pair| - 1 ==> pair[i] == value[i - (n + 2)];
    assert pair[0] == name[0] && pair[|pair| - 1] == '\'' && pair[n + 1] == '\'';
  }

  // And only they do. First, the values are spaced as words are.
  lemma {:induction false} ValuesAreSpaced(attributes: Attributes)
    requires SingleSpaced(AttributesText(attributes))
    ensures forall i :: 0 <= i < |attributes| ==> SingleSpaced(attributes[i].1)
  {
    hide SingleSpaced;
    if attributes == [] {
    } else {
      var (name, value) := attributes[0];
      var later := AttributesText(attributes[1..]);
      assert AttributesText(attributes) == " " + name + "='" + (value + ("'" + later));
      SpacedPart(" " + name + "='", value, "'" + later);
      assert " " + name + "='" + value + "'" + later == (" " + name + "='" + value + "'") + later + "";
      SpacedPart(" " + name + "='" + value + "'", later, "");
      ValuesAreSpaced(attributes[1..]);
      assert attributes == [attributes[0]] + attributes[1..];
    }
  }

  lemma SpacedPart(before: string, s: string, behind: string)
    requires SingleSpaced(before + (s + behind)) || SingleSpaced(before + s + behind)
    ensures SingleSpaced(s)
  {
    var all := before + s + behind;
    assert all == before + (s + behind);
    assert forall i :: 0 <= i < |s| ==> s[i] == all[|before| + i];
  }

  // The word that was dropped, if any.
  lemma {:induction false} Dropped(words: seq<string>) returns (p: nat)
    ensures p <= |words| && forall i :: 0 <= i < p ==> !NamesType(words[i])
    ensures p < |words| ==> NamesType(words[p])
    ensures DropFirst(words, "type") == if p == |words| then words else words[..p] + words[p + 1..]
    ensures |DropFirst(words, "type")| == if p == |words| then |words| else |words| - 1
  {
    hide NamesType, DropFirst;
    if words == [] {
      p := 0;
      NothingDropped();
    } else {
      DropOne(words[0], words[1..]);
      assert words == [words[0]] + words[1..];
      if NamesType(words[0]) {
        p := 0;
        assert words[..0] + words[1..] == words[1..];
      } else {
        var q := Dropped(words[1..]);
        p := q + 1;
        if q < |words[1..]| {
          DroppedLater(words, q);
        }
      }
    }
  }

  lemma DroppedLater(words: seq<string>, q: nat)
    requires q + 1 < |words|
    ensures [words[0]] + (words[1..][..q] + words[1..][q + 1..]) == words[..q + 1] + words[q + 2..]
  {
  }

  lemma NothingDropped()
    ensures DropFirst([], "type") == []
  {
  }

  // Where the attribute type stands; |attributes| when there is none.
  function TypeIndex(attributes: Attributes): (m: nat)
    ensures m <= |attributes| && (forall i :: 0 <= i < m ==> attributes[i].0 != "type")
    ensures m < |attributes| ==> attributes[m].0 == "type"
  {
    if attributes == [] || attributes[0].0 == "type" then 0 else 1 + TypeIndex(attributes[1..])
  }

  lemma {:induction false} AllWordsAppend(us: Attributes, vs: Attributes)
    ensures AllWords(us + vs) == AllWords(us) + AllWords(vs)
  {
    hide WordsOf;
    if us == [] {
      assert us + vs == vs;
    } else {
      assert (us + vs)[1..] == us[1..] + vs;
      AllWordsAppend(us[1..], vs);
    }
  }

  // The words are those of the other attributes and of type.
  lemma WordsAround(attributes: Attributes)
    requires IsDistinct(attributes) && TypeIndex(attributes) < |attributes|
    ensures var m := TypeIndex(attributes);
      var before, behind := AllWords(attributes[..m]), AllWords(attributes[m + 1..]);
      && AllWords(attributes) == before + (WordsOf(attributes[m]) + behind)
      && AllWords(Except(attributes, "type")) == before + behind
  {
    hide WordsOf, AllWords, Except, TypeIndex, IsDistinct;
    var m := TypeIndex(attributes);
    var before, behind := attributes[..m], attributes[m + 1..];
    assert attributes == before + ([attributes[m]] + behind);
    AllWordsAround(before, attributes[m], behind);
    OthersBehind(attributes, m, behind);
    ExceptAround(before, attributes[m], behind);
    AllWordsAppend(before, behind);
  }

  lemma OthersBehind(attributes: Attributes, m: nat, behind: Attributes)
    requires IsDistinct(attributes) && m < |attributes| && behind == attributes[m + 1..]
    ensures forall i :: 0 <= i < |behind| ==> behind[i].0 != attributes[m].0
  {
    forall i | 0 <= i < |behind|
      ensures behind[i].0 != attributes[m].0
    {
      assert behind[i] == attributes[m + 1 + i];
    }
  }

  lemma DistinctAt(attributes: Attributes, i: nat, j: nat)
    requires IsDistinct(attributes) && i < |attributes| && j < |attributes| && attributes[i].0 == attributes[j].0
    ensures i == j
  {
  }

  lemma NoTypeAround(attributes: Attributes)
    requires TypeIndex(attributes) == |attributes|
    ensures Except(attributes, "type") == attributes && attributes[..|attributes|] == attributes
  {
    ExceptAbsent(attributes, "type");
  }

  lemma AllWordsAround(before: Attributes, attribute: (string, string), behind: Attributes)
    ensures AllWords(before + ([attribute] + behind)) == AllWords(before) + (WordsOf(attribute) + AllWords(behind))
  {
    hide WordsOf;
    AllWordsAppend(before, [attribute] + behind);
    assert ([attribute] + behind)[1..] == behind;
  }

  lemma {:induction false} ExceptAround(before: Attributes, attribute: (string, string), behind: Attributes)
    requires attribute.0 == "type"
    requires forall i :: 0 <= i < |before| ==> before[i].0 != "type"
    requires forall i :: 0 <= i < |behind| ==> behind[i].0 != "type"
    ensures Except(before + ([attribute] + behind), "type") == before + behind
  {
    var all := before + ([attribute] + behind);
    if before == [] {
      assert all == [attribute] + behind && all[1..] == behind;
      ExceptAbsent(behind, "type");
    } else {
      assert all[1..] == before[1..] + ([attribute] + behind);
      ExceptAround(before[1..], attribute, behind);
      assert before == [before[0]] + before[1..];
    }
  }

  // When what is left are the words of the others, the dropped word is all of type.
  lemma DroppedIsType(attributes: Attributes) returns (p: nat)
    requires HasNames(attributes) && IsDistinct(attributes)
    requires DropFirst(AllWords(attributes), "type") == AllWords(Except(attributes, "type"))
    ensures var words, m := AllWords(attributes), TypeIndex(attributes);
      && p <= |words| && (p < |words| <==> m < |attributes|)
      && (forall i :: 0 <= i < p ==> !NamesType(words[i]))
      && (p < |words| ==> WordsOf(attributes[m]) == [words[p]])
  {
    hide NamesType, WordsOf, DropFirst, Except, IsName, AllWords, TypeIndex, IsDistinct;
    var words, m := AllWords(attributes), TypeIndex(attributes);
    p := Dropped(words);
    if m == |attributes| {
      NoTypeAround(attributes);
    } else {
      WordsAround(attributes);
      var before, behind := AllWords(attributes[..m]), AllWords(attributes[m + 1..]);
      var (name, value) := attributes[m];
      FirstWordNames(name, value);
      OneLess(words, p, before, WordsOf(attributes[m]), behind);
    }
  }

  lemma OneLess(words: seq<string>, p: nat, before: seq<string>, mine: seq<string>, behind: seq<string>)
    requires p <= |words| && words == before + (mine + behind) && mine != []
    requires before + behind == if p == |words| then words else words[..p] + words[p + 1..]
    ensures p < |words| && mine == [words[p]]
  {
    assert |before + behind| < |words|;
    var left := multiset(words[..p] + words[p + 1..]);
    assert words == words[..p] + [words[p]] + words[p + 1..];
    assert multiset(words) == left + multiset{words[p]};
    assert multiset(words) == multiset(before) + multiset(mine) + multiset(behind);
    assert left == multiset(before) + multiset(behind);
    Cancel(left, multiset{words[p]}, multiset(mine));
    OneElement(mine, words[p]);
  }

  lemma Cancel(x: multiset<string>, a: multiset<string>, b: multiset<string>)
    requires x + a == x + b
    ensures a == b
  {
    assert a == (x + a) - x && b == (x + b) - x;
  }

  lemma OneElement(list: seq<string>, s: string)
    requires multiset(list) == multiset{s}
    ensures list == [s]
  {
    assert |list| == |multiset(list)| == 1;
    assert list[0] in multiset(list);
  }

  lemma {:induction false} BeforeHasNoType(attributes: Attributes, word: string, typeValue: string)
    requires HasNames(attributes) && AllListedSafe(attributes)
    requires forall i :: 0 <= i < |attributes| ==> attributes[i].0 != "type"
    requires word in AllWords(attributes)
    ensures word != Pair("type", typeValue)
  {
    hide WordsOf, IsName, ListedSafe;
    var (name, value) := attributes[0];
    if word in WordsOf(attributes[0]) {
      NoTypeWord(name, value, word, typeValue);
    } else {
      BeforeHasNoType(attributes[1..], word, typeValue);
    }
  }

  // Attribute i has all its words in front of those of the attributes behind.
  lemma {:induction false} WordsWithin(attributes: Attributes, i: nat, word: string)
    requires i < |attributes| && word in WordsOf(attributes[i])
    ensures word in AllWords(attributes)
  {
    hide WordsOf;
    if i == 0 {
    } else {
      WordsWithin(attributes[1..], i - 1, word);
    }
  }

  lemma LeftMeansWellKept(attributes: Attributes)
    requires HasNames(attributes) && IsDistinct(attributes)
    requires DropFirst(AllWords(attributes), "type") == AllWords(Except(attributes, "type"))
    requires forall i :: 0 <= i < |attributes| && attributes[i].0 != "type" ==>
      ListedSafe(attributes[i].1) && SingleSpaced(attributes[i].1)
    ensures AllWellKept(attributes)
  {
    hide NamesType, WordsOf, DropFirst, Except, IsName, ListedSafe, SingleSpaced, AllWords;
    var p := DroppedIsType(attributes);
    forall i: nat | i < |attributes|
      ensures WellKept(attributes, i)
    {
      var m := TypeIndex(attributes);
      if attributes[i].0 == "type" {
        TypeIsOnce(attributes, i);
        FirstWordNames("type", attributes[i].1);
        assert attributes[i] == ("type", attributes[i].1);
      } else if ComesBeforeType(attributes, i) {
        NoMention(attributes, i, p);
      }
    }
  }

  lemma TypeIsOnce(attributes: Attributes, i: nat)
    requires IsDistinct(attributes) && i < |attributes| && attributes[i].0 == "type"
    ensures TypeIndex(attributes) == i && IsName("type")
  {
    TypeIsName();
    hide TypeIndex, IsName;
    DistinctAt(attributes, TypeIndex(attributes), i);
  }

  lemma TypeIsName()
    ensures IsName("type")
  {
  }

  lemma NoMention(attributes: Attributes, i: nat, p: nat)
    requires HasNames(attributes) && i < |attributes| && ComesBeforeType(attributes, i) && IsDistinct(attributes)
    requires forall k :: 0 <= k < |attributes| && attributes[k].0 != "type" ==> ListedSafe(attributes[k].1)
    requires var words, m := AllWords(attributes), TypeIndex(attributes);
      && p <= |words| && (p < |words| <==> m < |attributes|)
      && (forall k :: 0 <= k < p ==> !NamesType(words[k]))
      && (p < |words| ==> WordsOf(attributes[m]) == [words[p]])
    ensures !MentionsType(attributes[i])
  {
    hide NamesType, WordsOf, IsName, ListedSafe, AllWords, TypeIndex;
    var m := TypeIndex(attributes);
    assert i < m;
    var before := attributes[..m];
    assert before[i] == attributes[i];
    FirstWords(attributes, m);
    if MentionsType(attributes[i]) {
      var j :| 1 <= j < |WordsOf(attributes[i])| && NamesType(WordsOf(attributes[i])[j]);
      WordsWithin(before, i, WordsOf(attributes[i])[j]);
      var q :| 0 <= q < |AllWords(before)| && AllWords(before)[q] == WordsOf(attributes[i])[j];
      assert AllWords(attributes)[q] == AllWords(before)[q];
      assert p <= q && AllWords(attributes)[p] == AllWords(before)[p];
      var (name, value) := attributes[m];
      TypeIsName();
      FirstWordNames(name, value);
      BeforeHasNoType(before, AllWords(before)[p], value);
      assert false;
    }
  }

  lemma FirstWords(attributes: Attributes, m: nat)
    requires m <= |attributes|
    ensures AllWords(attributes[..m]) <= AllWords(attributes)
  {
    assert attributes == attributes[..m] + attributes[m..];
    AllWordsAppend(attributes[..m], attributes[m..]);
  }

  // The kept text is the text of the other attributes, and that can be read back, if and only if the
  // attributes are well kept.
  lemma KeptIff(attributes: Attributes)
    requires HasNames(attributes) && IsDistinct(attributes)
    ensures AllWellKept(attributes) <==>
      KeptText(attributes) == AttributesText(Except(attributes, "type")) && AllListedSafe(Except(attributes, "type"))
  {
    hide IsName, ListedSafe, SingleSpaced, IsDistinct, DropFirst, AllWords, WordsOf, Spaced, Runs, AttributesText;
    var others := Except(attributes, "type");
    TextWords(attributes);
    ExceptNames(attributes, "type");
    if AllWellKept(attributes) {
      OtherWords(attributes);
      OthersAreSafe(attributes);
      SpacedText(others);
    }
    if KeptText(attributes) == AttributesText(others) && AllListedSafe(others) {
      LeftWords(attributes);
      SafeOthers(attributes);
      LeftMeansWellKept(attributes);
    }
  }

  lemma OthersAreSafe(attributes: Attributes)
    requires AllWellKept(attributes)
    ensures var others := Except(attributes, "type");
      AllListedSafe(others) && forall i :: 0 <= i < |others| ==> SingleSpaced(others[i].1)
  {
    hide ListedSafe, SingleSpaced, MentionsType, Except;
    var others := Except(attributes, "type");
    ExceptIs(attributes, "type");
    forall i | 0 <= i < |others|
      ensures ListedSafe(others[i].1) && SingleSpaced(others[i].1)
    {
      assert others[i] in attributes;
      var k :| 0 <= k < |attributes| && attributes[k] == others[i];
      assert WellKept(attributes, k);
    }
  }

  lemma SafeOthers(attributes: Attributes)
    requires var others := Except(attributes, "type");
      AllListedSafe(others) && forall i :: 0 <= i < |others| ==> SingleSpaced(others[i].1)
    ensures forall i :: 0 <= i < |attributes| && attributes[i].0 != "type" ==>
      ListedSafe(attributes[i].1) && SingleSpaced(attributes[i].1)
  {
    hide ListedSafe, SingleSpaced, Except;
    ExceptIs(attributes, "type");
    forall i | 0 <= i < |attributes| && attributes[i].0 != "type"
      ensures ListedSafe(attributes[i].1) && SingleSpaced(attributes[i].1)
    {
      assert attributes[i] in Except(attributes, "type");
    }
  }

  // Equal texts have equal words and spacing.
  lemma LeftWords(attributes: Attributes)
    requires KeptText(attributes) == AttributesText(Except(attributes, "type"))
    ensures DropFirst(AllWords(attributes), "type") == AllWords(Except(attributes, "type"))
    ensures forall i :: 0 <= i < |Except(attributes, "type")| ==> SingleSpaced(Except(attributes, "type")[i].1)
  {
    hide SingleSpaced, DropFirst, AllWords, WordsOf, Spaced, Runs, AttributesText, Free;
    var others := Except(attributes, "type");
    TextWords(attributes);
    TextWords(others);
    var left := DropFirst(AllWords(attributes), "type");
    LeftAreWords(AttributesText(attributes));
    SpacedReadsBack(left);
    SpacedIsSingle(left);
    ValuesAreSpaced(others);
  }

  lemma LeftAreWords(text: string)
    ensures AreWords(DropFirst(Runs(text, " "), "type"))
  {
    hide Free, Runs;
    RunsOfString(text, " ");
    DropKeepsTokens(Runs(text, " "), "type");
    var words, left := Runs(text, " "), DropFirst(Runs(text, " "), "type");
    hide DropFirst;
    forall i | 0 <= i < |left|
      ensures left[i] != "" && Free(left[i], " ")
    {
      assert left[i] in words;
    }
  }

  // ---- Reading the escaped text. ----

  // A spelling that is spaced as words are is the text of the attributes.
  lemma {:induction false} SpellingIsText(s: string, attributes: Attributes)
    requires IsSpelling(s, attributes) && SingleSpaced(s) && (s != "" ==> s[|s| - 1] != ' ')
    ensures s == AttributesText(attributes)
    decreases |attributes|
  {
    if attributes == [] {
      if s != "" {
        LastOfSpaces(s);
      }
    } else {
      hide IsSpelling, SpellsFirst, SingleSpaced;
      var gap, later := SpellingStart(s, attributes);
      var (name, value) := attributes[0];
      OneSpace(s, gap, attributes[0], later);
      var start := " " + name + "='" + value + "'";
      assert s == start + later + "";
      SpacedPart(start, later, "");
      assert later != "" ==> later[|later| - 1] == s[|s| - 1];
      SpellingIsText(later, attributes[1..]);
    }
  }

  lemma SpellingStart(s: string, attributes: Attributes) returns (gap: nat, later: string)
    requires attributes != [] && IsSpelling(s, attributes)
    ensures SpellsFirst(s, gap, attributes[0], later) && IsSpelling(later, attributes[1..])
  {
    gap, later :| SpellsFirst(s, gap, attributes[0], later) && IsSpelling(later, attributes[1..]);
  }

  lemma LastOfSpaces(s: string)
    requires AllSpaces(s) && s != ""
    ensures s[|s| - 1] == ' '
  {
  }

  lemma TwoSpaces(gap: nat, more: string)
    requires gap > 1
    ensures !SingleSpaced(Spaces(gap) + more)
  {
    assert Spaces(gap) == " " + (" " + Spaces(gap - 2));
    var s := Spaces(gap) + more;
    assert s[0] == ' ' && s[1] == ' ';
  }

  lemma OneSpace(s: string, gap: nat, attribute: (string, string), later: string)
    requires SpellsFirst(s, gap, attribute, later) && SingleSpaced(s)
    ensures s == " " + attribute.0 + "='" + attribute.1 + "'" + later
  {
    hide SingleSpaced;
    if gap > 1 {
      TwoSpaces(gap, attribute.0 + "='" + attribute.1 + "'" + later);
    }
    assert Spaces(1) == " ";
  }
}
