// disambiguate of squoia_xfer_lex.cc: the alternatives of a dictionary answer are split, printed as
// attribute text and put in the order of their senses.
module Disambiguation {
  import opened Options
  import opened Tokens
  import opened Escaping
  import opened AttributeText
  import opened EntrySenses
  import Alternatives
  import SenseOrder

  ghost predicate AllReadable(texts: seq<string>)
  {
    forall k :: 0 <= k < |texts| ==> ReadableText(texts[k])
  }

  ghost function DictTexts(texts: seq<string>): seq<string>
    requires AllReadable(texts)
  {
    seq(|texts|, k requires 0 <= k < |texts| => DictText(texts[k]))
  }

  // A negative sense would index the vector out of bounds.
  ghost predicate HasSenses(ordainak: seq<string>, senses: seq<nat>)
  {
    |senses| == |ordainak| && forall k :: 0 <= k < |ordainak| ==> SenseOrder.SenseOf(ordainak[k]) == senses[k]
  }

  method Disambiguate(full: string, ghost senses: seq<nat>) returns (ordainak: seq<string>)
    requires AllReadable(Alternatives.Scan("", full))
    requires HasSenses(DictTexts(Alternatives.Scan("", full)), senses)
    ensures ordainak == SenseOrder.Ordered(DictTexts(Alternatives.Scan("", full)), senses)
  {
    var texts := Alternatives.SplitAlternatives(full);
    ordainak := [];
    for k := 0 to |texts|
      invariant ordainak == DictTexts(texts)[..k]
    {
      var text := GetDictAttributes(texts[k]);
      ordainak := ordainak + [text];
    }
    ordainak := SenseOrder.OrderOrdainak(ordainak, senses);
  }

  // ---- From dictionary entries to look-ups. ----

  ghost predicate PlainEntries(entries: seq<DictEntry>)
  {
    forall k :: 0 <= k < |entries| ==> PlainEntry(entries[k])
  }

  function Texts(entries: seq<DictEntry>): seq<string>
  {
    seq(|entries|, k requires 0 <= k < |entries| => EntryText(entries[k].lem, entries[k].pairs))
  }

  // The transducer's answer for a list of entries.
  function Answer(entries: seq<DictEntry>): string
    requires entries != []
  {
    Alternatives.Joined(Texts(entries))
  }

  lemma AnswerSplits(entries: seq<DictEntry>)
    requires entries != [] && PlainEntries(entries)
    ensures Alternatives.Scan("", Answer(entries)) == Texts(entries)
    ensures AllReadable(Texts(entries))
  {
    hide Alternatives.Scan, Alternatives.Joined, EntryText, PlainEntry, ReadableText;
    forall k | 0 <= k < |entries|
      ensures Texts(entries)[k] != "" && ReadableText(Texts(entries)[k])
    {
      EntryIsPrinted(entries[k]);
      PlainIsNotEmpty(entries[k]);
    }
    Alternatives.SplitUndoesJoin(Texts(entries));
  }

  lemma PlainIsNotEmpty(e: DictEntry)
    requires PlainEntry(e)
    ensures EntryText(e.lem, e.pairs) != ""
  {
    EntryTextEmpty(e.lem, e.pairs);
  }

  ghost predicate NoNegativeSense(entries: seq<DictEntry>)
  {
    forall k :: 0 <= k < |entries| ==> SenseOfEntry(entries[k]) >= 0
  }

  ghost function Senses(entries: seq<DictEntry>): seq<nat>
    requires NoNegativeSense(entries)
  {
    seq(|entries|, k requires 0 <= k < |entries| => SenseOfEntry(entries[k]))
  }

  // The senses the ordering reads are those of the entries.
  lemma SensesAreRead(entries: seq<DictEntry>)
    requires PlainEntries(entries) && NoNegativeSense(entries)
    ensures AllReadable(Texts(entries)) && HasSenses(DictTexts(Texts(entries)), Senses(entries))
  {
    hide EntryText, PlainEntry, ReadableText, DictText, SenseOfEntry, SenseOrder.SenseOf;
    forall k | 0 <= k < |entries|
      ensures ReadableText(Texts(entries)[k])
      ensures SenseOrder.SenseOf(DictText(Texts(entries)[k])) == SenseOfEntry(entries[k])
    {
      SenseIsRead(entries[k]);
    }
  }

  // The whole way: plain entries whose senses are distinct, escaped, joined, split, printed and ordered,
  // stand where their senses say, and every attribute of each is looked up as it was in the entry, escaped.
  lemma EntriesAreLookedUp(entries: seq<DictEntry>, i: nat, name: string)
    requires PlainEntries(entries) && NoNegativeSense(entries) && SenseOrder.Distinct(Senses(entries))
    requires i < |entries|
    ensures Alternatives.Scan("", Answer(entries)) == Texts(entries)
    ensures AllReadable(Texts(entries)) && HasSenses(DictTexts(Texts(entries)), Senses(entries))
    ensures var ordered := SenseOrder.Ordered(DictTexts(Texts(entries)), Senses(entries));
      var place := Senses(entries)[i] - SenseOrder.Base(Senses(entries));
      && 0 <= place < |ordered|
      && var tokens := Runs(ordered[place], " ");
         var v := FirstValue(AllPairs(entries[i]), name);
         Readable(tokens, name) && Lookup(tokens, name) == if v.Some? then Escape(v.value) else ""
  {
    hide Alternatives.Scan, Alternatives.Joined, SenseOrder.Ordered, EntryText, DictText, Runs, Lookup, PlainEntry;
    AnswerSplits(entries);
    SensesAreRead(entries);
    SenseOrder.DistinctEntry(DictTexts(Texts(entries)), Senses(entries), i);
    assert PlainEntry(entries[i]);
    DictionaryRoundTrip(entries[i], name);
  }

  // ---- The same entries, one of them lost or not. ----

  const EntryA := DictEntry("a", [])
  const EntryB := DictEntry("b", [])
  const EntryC := DictEntry("c", [("sense", "1")])

  lemma ThreeTexts()
    ensures EntryText(EntryA.lem, EntryA.pairs) == "a" && EntryText(EntryB.lem, EntryB.pairs) == "b"
    ensures EntryText(EntryC.lem, EntryC.pairs) == "c<sense>1"
    ensures PlainEntry(EntryA) && PlainEntry(EntryB) && PlainEntry(EntryC)
    ensures SenseOfEntry(EntryA) == 0 && SenseOfEntry(EntryB) == 0 && SenseOfEntry(EntryC) == 1
  {
    assert EntryC.pairs[..0] == [];
  }

  lemma ThreeJoined()
    ensures Alternatives.Joined(["a", "b", "c<sense>1"]) == "a/b/c<sense>1"
    ensures Alternatives.Joined(["c<sense>1", "a", "b"]) == "c<sense>1/a/b"
  {
    hide Alternatives.Joined;
    JoinedThree("a", "b", "c<sense>1");
    JoinedThree("c<sense>1", "a", "b");
  }

  lemma JoinedThree(s: string, t: string, u: string)
    requires '/' !in s + t + u && '\\' !in s + t + u
    ensures Alternatives.Joined([s, t, u]) == s + ("/" + (t + ("/" + u)))
  {
    hide Alternatives.Escaped;
    NothingEscaped(s);
    NothingEscaped(t);
    NothingEscaped(u);
    var all, two := [s, t, u], [t, u];
    assert all[1..] == two && two[1..] == [u];
    assert Alternatives.Joined([u]) == u;
    assert Alternatives.Joined(two) == t + "/" + Alternatives.Joined(two[1..]);
    assert Alternatives.Joined(all) == s + "/" + Alternatives.Joined(all[1..]);
  }

  lemma {:induction false} NothingEscaped(s: string)
    requires '/' !in s && '\\' !in s
    ensures Alternatives.Escaped(s) == s
  {
    if s == "" {
    } else {
      NothingEscaped(s[1..]);
      assert s == [s[0]] + s[1..];
    }
  }

  // Behind two entries without a sense, an entry of sense 1 takes the slot of the first of them.
  lemma TwoZerosLoseAnEntry()
    ensures var texts, senses := Alternatives.Scan("", "a/b/c<sense>1"), [0, 0, 1];
      && texts == ["a", "b", "c<sense>1"] && AllReadable(texts) && HasSenses(DictTexts(texts), senses)
      && SenseOrder.Ordered(DictTexts(texts), senses) == DictTexts(texts)[1..]
  {
    hide Alternatives.Scan, Alternatives.Joined, EntryText, PlainEntry, SenseOfEntry, DictText, SenseOrder.Ordered;
    hide SenseOrder.SenseOf, ReadableText;
    ThreeTexts();
    ThreeJoined();
    AnswerOfThree(EntryA, EntryB, EntryC);
    var texts := DictTexts(["a", "b", "c<sense>1"]);
    SenseOrder.OneBehindTwoZeros(texts[0], texts[1], texts[2]);
    assert texts == [texts[0], texts[1], texts[2]];
  }

  // In front of them nothing is lost.
  lemma TwoZerosBehindLoseNothing()
    ensures var texts, senses := Alternatives.Scan("", "c<sense>1/a/b"), [1, 0, 0];
      && texts == ["c<sense>1", "a", "b"] && AllReadable(texts) && HasSenses(DictTexts(texts), senses)
      && SenseOrder.Ordered(DictTexts(texts), senses) == SenseOrder.Reverse(DictTexts(texts))
  {
    hide Alternatives.Scan, Alternatives.Joined, EntryText, PlainEntry, SenseOfEntry, DictText, SenseOrder.Ordered;
    hide SenseOrder.SenseOf, ReadableText, SenseOrder.Reverse;
    ThreeTexts();
    ThreeJoined();
    AnswerOfThree(EntryC, EntryA, EntryB);
    var texts := DictTexts(["c<sense>1", "a", "b"]);
    SenseOrder.OneBeforeTwoZeros(texts[0], texts[1], texts[2]);
    assert texts == [texts[0], texts[1], texts[2]];
    ReverseOfThree(texts);
  }

  lemma AnswerOfThree(e: DictEntry, f: DictEntry, g: DictEntry)
    requires PlainEntry(e) && PlainEntry(f) && PlainEntry(g)
    requires SenseOfEntry(e) >= 0 && SenseOfEntry(f) >= 0 && SenseOfEntry(g) >= 0
    ensures var texts := [EntryText(e.lem, e.pairs), EntryText(f.lem, f.pairs), EntryText(g.lem, g.pairs)];
      && texts == Texts([e, f, g]) && Alternatives.Scan("", Alternatives.Joined(texts)) == texts && AllReadable(texts)
      && HasSenses(DictTexts(texts), [SenseOfEntry(e), SenseOfEntry(f), SenseOfEntry(g)])
  {
    hide Alternatives.Scan, Alternatives.Joined, EntryText, PlainEntry, SenseOfEntry, DictText, ReadableText;
    hide SenseOrder.SenseOf;
    var entries := [e, f, g];
    AnswerSplits(entries);
    SensesAreRead(entries);
    var senses := Senses(entries);
    assert senses == [SenseOfEntry(e), SenseOfEntry(f), SenseOfEntry(g)];
    assert Texts(entries) == [EntryText(e.lem, e.pairs), EntryText(f.lem, f.pairs), EntryText(g.lem, g.pairs)];
  }

  lemma ReverseOfThree(texts: seq<string>)
    requires |texts| == 3
    ensures SenseOrder.Reverse(texts) == [texts[2], texts[1], texts[0]]
  {
    assert texts[..2][..1] == texts[..1] && texts[..1][..0] == [];
    assert SenseOrder.Reverse(texts[..1]) == [texts[0]] + SenseOrder.Reverse([]);
    assert SenseOrder.Reverse(texts[..2]) == [texts[1]] + SenseOrder.Reverse(texts[..1]);
  }
}
