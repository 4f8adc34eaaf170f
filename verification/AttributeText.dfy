// Attribute text of squoia_xfer_lex.cc: name='value' pairs separated by spaces, written from a
// dictionary entry, looked up, and edited.
module AttributeText {
  import opened Options
  import opened Tokens
  import opened Escaping

  // ---- Fields of a token. ----

  function Fields(token: string): seq<string>
  {
    Runs(token, "=")
  }

  // text_attrib on the token list. The source reads the first field of every token up to the match
  // and the second field of the match, so these must exist.
  ghost predicate Readable(tokens: seq<string>, name: string)
  {
    tokens != [] ==>
      var fields := Fields(tokens[0]);
      && fields != []
      && (if fields[0] == name then |fields| >= 2 else Readable(tokens[1..], name))
  }

  function Lookup(tokens: seq<string>, name: string): string
    requires Readable(tokens, name)
  {
    if tokens == [] then ""
    else
      var fields := Fields(tokens[0]);
      if fields[0] == name then Without(fields[1], "'") else Lookup(tokens[1..], name)
  }

  // text_attrib.
  method TextAttrib(attributes: string, nombre: string) returns (value: string)
    requires Readable(Runs(attributes, " "), nombre)
    ensures value == Lookup(Runs(attributes, " "), nombre)
  {
    hide Runs, Without;
    var tokens := Tokenize(attributes, " ");
    value := "";
    assert tokens[0..] == tokens;
    for i := 0 to |tokens|
      invariant Readable(tokens[i..], nombre)
      invariant Lookup(tokens[i..], nombre) == Lookup(tokens, nombre)
    {
      assert tokens[i..][0] == tokens[i] && tokens[i..][1..] == tokens[i + 1..];
      var attribs := Tokenize(tokens[i], "=");
      if attribs[0] == nombre {
        value := Tokenize2(attribs[1], "'");
        return;
      }
    }
  }

  // v2s: every element preceded by a space.
  function Spaced(tokens: seq<string>): string
  {
    if tokens == [] then "" else Spaced(tokens[..|tokens| - 1]) + " " + tokens[|tokens| - 1]
  }

  ghost predicate Named(tokens: seq<string>)
  {
    forall i :: 0 <= i < |tokens| ==> Fields(tokens[i]) != []
  }

  function DropFirst(tokens: seq<string>, name: string): seq<string>
  {
    if tokens == [] then []
    else if Fields(tokens[0]) != [] && Fields(tokens[0])[0] == name then tokens[1..]
    else [tokens[0]] + DropFirst(tokens[1..], name)
  }

  // text_allAttrib_except.
  method TextAllAttribExcept(attributes: string, nombre: string) returns (result: string)
    requires Named(Runs(attributes, " "))
    ensures result == Spaced(DropFirst(Runs(attributes, " "), nombre))
  {
    hide Runs, DropFirst;
    var tokens := Tokenize(attributes, " ");
    ghost var all := tokens;
    assert all[..0] + DropFirst(all[0..], nombre) == DropFirst(all, nombre) by {
      assert all[0..] == all;
    }
    var i := 0;
    while i < |tokens|
      invariant i <= |tokens| && tokens == all
      invariant all[..i] + DropFirst(all[i..], nombre) == DropFirst(all, nombre)
    {
      DropStep(all, nombre, i);
      var attribs := Tokenize(tokens[i], "=");
      if attribs[0] == nombre {
        tokens := tokens[..i] + tokens[i + 1..];
        break;
      }
      i := i + 1;
    }
    if i == |all| {
      DropNothing(all, nombre);
    }
    result := V2S(tokens);
  }

  lemma DropStep(all: seq<string>, name: string, i: nat)
    requires i < |all| && Fields(all[i]) != []
    ensures if Fields(all[i])[0] == name then DropFirst(all[i..], name) == all[i + 1..]
      else all[..i] + DropFirst(all[i..], name) == all[..i + 1] + DropFirst(all[i + 1..], name)
  {
    assert all[i..][1..] == all[i + 1..];
    assert all[..i + 1] == all[..i] + [all[i]];
  }

  lemma DropNothing(all: seq<string>, name: string)
    ensures all[..|all|] + DropFirst(all[|all|..], name) == all
  {
  }

  method V2S(vector: seq<string>) returns (result: string)
    ensures result == Spaced(vector)
  {
    result := "";
    for i := 0 to |vector|
      invariant result == Spaced(vector[..i])
    {
      assert vector[..i + 1][..i] == vector[..i];
      result := result + (" " + vector[i]);
    }
    assert vector[..|vector|] == vector;
  }

  // ---- Editing does not change other look-ups. ----

  // Space-free tokens written by v2s are tokenized back.
  lemma {:induction false} SpacedReadsBack(tokens: seq<string>)
    requires forall i :: 0 <= i < |tokens| ==> tokens[i] != "" && Free(tokens[i], " ")
    ensures Runs(Spaced(tokens), " ") == tokens
  {
    if tokens == [] {
    } else {
      var n := |tokens| - 1;
      SpacedReadsBack(tokens[..n]);
      RunsOfSnoc("", Spaced(tokens[..n]), tokens[n], " ", ' ');
    }
  }

  lemma {:induction false} DropKeepsTokens(tokens: seq<string>, name: string)
    ensures forall t :: t in DropFirst(tokens, name) ==> t in tokens
  {
    if tokens == [] {
    } else {
      DropKeepsTokens(tokens[1..], name);
      assert tokens == [tokens[0]] + tokens[1..];
    }
  }

  lemma {:induction false} DropKeepsLookups(tokens: seq<string>, name: string, other: string)
    requires Named(tokens) && Readable(tokens, other) && other != name
    ensures Readable(DropFirst(tokens, name), other)
    ensures Lookup(DropFirst(tokens, name), other) == Lookup(tokens, other)
  {
    hide Runs;
    if tokens == [] {
    } else {
      var dropped := DropFirst(tokens[1..], name);
      assert Fields(tokens[0]) != [];
      if Fields(tokens[0])[0] != other {
        DropKeepsLookups(tokens[1..], name, other);
      }
      assert ([tokens[0]] + dropped)[1..] == dropped;
    }
  }

  // text_allAttrib_except removes the first attribute of the name and changes no other look-up.
  lemma ExceptChangesNoOther(attributes: string, name: string, other: string)
    requires Named(Runs(attributes, " ")) && Readable(Runs(attributes, " "), other) && other != name
    ensures var result := Spaced(DropFirst(Runs(attributes, " "), name));
      && Runs(result, " ") == DropFirst(Runs(attributes, " "), name)
      && Readable(Runs(result, " "), other)
      && Lookup(Runs(result, " "), other) == Lookup(Runs(attributes, " "), other)
  {
    hide Runs, RunsFrom, Lookup, Readable;
    var tokens := Runs(attributes, " ");
    RunsOfString(attributes, " ");
    DropKeepsTokens(tokens, name);
    var dropped := DropFirst(tokens, name);
    forall i | 0 <= i < |dropped|
      ensures dropped[i] != "" && Free(dropped[i], " ")
    {
      assert dropped[i] in tokens;
    }
    SpacedReadsBack(dropped);
    DropKeepsLookups(tokens, name, other);
  }

  lemma RunsOfString(s: string, delimiters: string)
    ensures forall i :: 0 <= i < |Runs(s, delimiters)| ==>
      Runs(s, delimiters)[i] != "" && Free(Runs(s, delimiters)[i], delimiters)
  {
    RunsAreFree("", s, delimiters);
  }

  // ---- Printing a pair and reading it back. ----

  function Pair(name: string, value: string): string
  {
    name + "='" + value + "'"
  }

  // Names and values a token can carry.
  ghost predicate Plain(s: string)
  {
    Free(s, " ='")
  }

  lemma PlainFree(s: string)
    requires Plain(s)
    ensures Free(s, " ") && Free(s, "=") && Free(s, "'")
  {
  }

  lemma PairReadsBack(name: string, value: string)
    requires name != "" && Plain(name) && Plain(value)
    ensures Fields(Pair(name, value)) == [name, "'" + value + "'"]
    ensures Without("'" + value + "'", "'") == value
    ensures Pair(name, value) != "" && Free(Pair(name, value), " ")
  {
    PlainFree(name);
    PlainFree(value);
    var quoted := "'" + value + "'";
    assert Pair(name, value) == name + ("=" + quoted);
    RunsOfCons(name, "=" + quoted, "=");
    assert ("=" + quoted)[1..] == quoted;
    RunsOfOne(quoted, "=");
    QuotesVanish(value);
  }

  lemma QuotesVanish(value: string)
    requires Free(value, "'")
    ensures Without("'" + value + "'", "'") == value
  {
    assert ("'" + value + "'")[1..] == value + "'";
    WithoutAppend(value, "'", "'");
    WithoutFree(value, "'");
    assert Without("'", "'") == "" + Without("'"[1..], "'");
  }

  // ---- Dictionary entries: lemma<k1>v1<k2>v2... ----

  predicate StartsWith(s: string, c: char)
  {
    s != "" && s[0] == c
  }

  // The source indexes the key and the value of every part, and write_xml looks before the first
  // character.
  ghost predicate ReadablePart(part: string)
  {
    var attribs := Runs(part, ">");
    |attribs| >= 2 && !StartsWith(attribs[1], '\'')
  }

  ghost predicate ReadableText(full: string)
  {
    var tokens := Runs(full, "<");
    && (forall i :: 1 <= i < |tokens| ==> ReadablePart(tokens[i]))
    && (tokens != [] ==> if StartsWith(full, '<') then ReadablePart(tokens[0]) else !StartsWith(tokens[0], '\''))
  }

  ghost function PartToken(part: string): string
    requires ReadablePart(part)
  {
    var attribs := Runs(part, ">");
    Pair(attribs[0], Escape(attribs[1]))
  }

  ghost function PartTokens(parts: seq<string>): seq<string>
    requires forall i :: 0 <= i < |parts| ==> ReadablePart(parts[i])
  {
    seq(|parts|, i requires 0 <= i < |parts| => PartToken(parts[i]))
  }

  // The attribute text of an entry: the lemma without a leading space, then every part with one.
  ghost function DictText(full: string): string
    requires ReadableText(full)
  {
    var tokens := Runs(full, "<");
    if StartsWith(full, '<') then Pair("lem", "") + Spaced(PartTokens(tokens))
    else if tokens == [] then ""
    else Pair("lem", Escape(tokens[0])) + Spaced(PartTokens(tokens[1..]))
  }

  // get_dict_attributes.
  method GetDictAttributes(full: string) returns (result: string)
    requires ReadableText(full)
    ensures result == DictText(full)
  {
    hide Runs, Escape, ReadablePart, PartToken, PartTokens, Spaced, Pair;
    var tokens := Tokenize(full, "<");
    result := "";
    var emptyLemma := false;
    if StartsWith(full, '<') {
      result := Pair("lem", "");
      emptyLemma := true;
    }
    ghost var first := result;
    ghost var parts: seq<string> := [];
    NoParts();
    for i := 0 to |tokens|
      invariant !emptyLemma && i == 0 ==> result == ""
      invariant parts == if emptyLemma then tokens[..i] else if i == 0 then [] else tokens[1..i]
      invariant forall k :: 0 <= k < |parts| ==> ReadablePart(parts[k])
      invariant result == first + Spaced(PartTokens(parts))
      invariant first == if emptyLemma then Pair("lem", "") else if i == 0 then "" else Pair("lem", Escape(tokens[0]))
    {
      if i == 0 && !emptyLemma {
        var value := WriteXml(tokens[i], None);
        result := result + Pair("lem", value);
        first := result;
      } else {
        var part := PrintPart(tokens[i]);
        PartTokensSnoc(parts, tokens[i]);
        Associate(first, Spaced(PartTokens(parts)), part);
        parts := parts + [tokens[i]];
        result := result + (" " + part);
      }
    }
    assert parts == if emptyLemma || tokens == [] then tokens else tokens[1..];
  }

  lemma NoParts()
    ensures Spaced(PartTokens([])) == ""
  {
  }

  lemma Associate(s: string, t: string, u: string)
    ensures s + t + (" " + u) == s + (t + " " + u)
    ensures "" + u == u && u + "" == u
  {
  }

  method PrintPart(part: string) returns (s: string)
    requires ReadablePart(part)
    ensures s == PartToken(part)
  {
    hide Runs, Escape;
    var attribs := Tokenize(part, ">");
    var value := WriteXml(attribs[1], None);
    s := attribs[0] + "='" + value + "'";
  }

  lemma PartTokensSnoc(parts: seq<string>, part: string)
    requires (forall i :: 0 <= i < |parts| ==> ReadablePart(parts[i])) && ReadablePart(part)
    ensures forall i :: 0 <= i < |parts + [part]| ==> ReadablePart((parts + [part])[i])
    ensures Spaced(PartTokens(parts + [part])) == Spaced(PartTokens(parts)) + " " + PartToken(part)
  {
    hide ReadablePart;
    var tokens := PartTokens(parts + [part]);
    assert tokens[..|parts|] == PartTokens(parts);
  }

  // ---- Round trip: what is looked up is what the entry says. ----

  datatype DictEntry = DictEntry(lem: string, pairs: seq<(string, string)>)

  // Nothing in the entry is empty except possibly the lemma, and nothing contains a space, an
  // apostrophe or one of = < >.
  ghost predicate PlainEntry(e: DictEntry)
  {
    && Free(e.lem, " ='<>")
    && (forall i :: 0 <= i < |e.pairs| ==> PlainPair(e.pairs[i]))
    && (e.lem != "" || e.pairs != [])
  }

  ghost predicate PlainPair(pair: (string, string))
  {
    pair.0 != "" && pair.1 != "" && Free(pair.0, " ='<>") && Free(pair.1, " ='<>")
  }

  function PairText(pair: (string, string)): string
  {
    pair.0 + ">" + pair.1
  }

  function EntryText(lem: string, pairs: seq<(string, string)>): string
  {
    if pairs == [] then lem
    else EntryText(lem, pairs[..|pairs| - 1]) + ['<'] + PairText(pairs[|pairs| - 1])
  }

  function PairTexts(pairs: seq<(string, string)>): seq<string>
  {
    seq(|pairs|, i requires 0 <= i < |pairs| => PairText(pairs[i]))
  }

  // The attributes of an entry, the lemma included.
  function AllPairs(e: DictEntry): seq<(string, string)>
  {
    [("lem", e.lem)] + e.pairs
  }

  function Printed(pairs: seq<(string, string)>): seq<string>
  {
    seq(|pairs|, i requires 0 <= i < |pairs| => Pair(pairs[i].0, Escape(pairs[i].1)))
  }

  // The value of the first pair with the name.
  function FirstValue(pairs: seq<(string, string)>, name: string): Option<string>
  {
    if pairs == [] then None
    else if pairs[0].0 == name then Some(pairs[0].1)
    else FirstValue(pairs[1..], name)
  }

  lemma FreePart(s: string, more: string, less: string)
    requires Free(s, more) && forall i :: 0 <= i < |less| ==> less[i] in more
    ensures Free(s, less)
  {
  }

  lemma PairTextReads(pair: (string, string))
    requires PlainPair(pair)
    ensures Runs(PairText(pair), ">") == [pair.0, pair.1] && ReadablePart(PairText(pair))
    ensures PartToken(PairText(pair)) == Pair(pair.0, Escape(pair.1))
    ensures PairText(pair) != "" && Free(PairText(pair), "<")
  {
    hide Escape;
    FreePart(pair.0, " ='<>", ">");
    FreePart(pair.1, " ='<>", ">");
    var rest := ">" + pair.1;
    assert PairText(pair) == pair.0 + rest && rest[1..] == pair.1;
    RunsOfCons(pair.0, rest, ">");
    RunsOfOne(pair.1, ">");
  }

  lemma {:induction false} EntryTextReads(lem: string, pairs: seq<(string, string)>)
    requires Free(lem, " ='<>") && forall i :: 0 <= i < |pairs| ==> PlainPair(pairs[i])
    ensures Runs(EntryText(lem, pairs), "<") == (if lem == "" then [] else [lem]) + PairTexts(pairs)
    ensures StartsWith(EntryText(lem, pairs), '<') <==> lem == "" && pairs != []
  {
    if pairs == [] {
      FreePart(lem, " ='<>", "<");
      if lem != "" {
        RunsOfOne(lem, "<");
      }
    } else {
      var n := |pairs| - 1;
      EntryTextReads(lem, pairs[..n]);
      PairTextReads(pairs[n]);
      hide Runs, PairText;
      var before := EntryText(lem, pairs[..n]);
      RunsOfSnocString(before, PairText(pairs[n]));
      assert PairTexts(pairs) == PairTexts(pairs[..n]) + [PairText(pairs[n])];
      assert EntryText(lem, pairs)[0] == if before == "" then '<' else before[0];
      assert before == "" <==> lem == "" && pairs[..n] == [] by {
        EntryTextEmpty(lem, pairs[..n]);
      }
    }
  }

  lemma EntryTextEmpty(lem: string, pairs: seq<(string, string)>)
    ensures EntryText(lem, pairs) == "" <==> lem == "" && pairs == []
  {
  }

  lemma RunsOfSnocString(s: string, token: string)
    requires Free(token, "<") && token != ""
    ensures Runs(s + ['<'] + token, "<") == Runs(s, "<") + [token]
  {
    RunsOfSnoc("", s, token, "<", '<');
  }

  // A dictionary entry is printed as its pairs, the lemma first.
  lemma EntryIsPrinted(e: DictEntry)
    requires PlainEntry(e)
    ensures ReadableText(EntryText(e.lem, e.pairs))
    ensures DictText(EntryText(e.lem, e.pairs)) == Printed(AllPairs(e))[0] + Spaced(Printed(AllPairs(e))[1..])
  {
    EntryTextReads(e.lem, e.pairs);
    PartsArePrinted(e);
    EscapeNothing();
    hide Escape, Runs, PairText, EntryText, ReadablePart, PartToken, Spaced, PartTokens;
    var full := EntryText(e.lem, e.pairs);
    var tokens := Runs(full, "<");
    var parts := PairTexts(e.pairs);
    if e.lem == "" {
      assert tokens == parts;
    } else {
      FreePart(e.lem, " ='<>", "'");
      assert tokens[0] == e.lem && tokens[1..] == parts;
      assert forall i :: 1 <= i < |tokens| ==> tokens[i] == parts[i - 1];
    }
  }

  lemma PartsArePrinted(e: DictEntry)
    requires PlainEntry(e)
    ensures forall i :: 0 <= i < |PairTexts(e.pairs)| ==> ReadablePart(PairTexts(e.pairs)[i])
    ensures PartTokens(PairTexts(e.pairs)) == Printed(AllPairs(e))[1..]
  {
    hide Escape, Runs, PairText, ReadablePart, PartToken;
    var parts := PairTexts(e.pairs);
    forall i | 0 <= i < |parts|
      ensures ReadablePart(parts[i]) && PartToken(parts[i]) == Pair(e.pairs[i].0, Escape(e.pairs[i].1))
    {
      PairTextReads(e.pairs[i]);
    }
  }

  lemma EscapeNothing()
    ensures Escape("") == ""
  {
  }

  // Escaping leaves plain text plain.
  lemma {:induction false} EscapeStaysPlain(prev: Option<char>, s: string)
    requires Plain(s)
    ensures Plain(EscapeFrom(prev, s))
    decreases |s|
  {
    if s == "" {
    } else {
      EscapeStaysPlain(Some(s[0]), s[1..]);
      hide EscapeFrom;
      var piece := Substitute(prev, s[0], s[1..]);
      assert Plain(piece);
      PlainConcat(piece, EscapeFrom(Some(s[0]), s[1..]));
      EscapeFromStep(prev, s);
    }
  }

  lemma PlainConcat(s: string, t: string)
    requires Plain(s) && Plain(t)
    ensures Plain(s + t)
  {
  }

  lemma {:induction false} PrintedReadsBack(pairs: seq<(string, string)>, name: string)
    requires forall i :: 0 <= i < |pairs| ==> pairs[i].0 != "" && Plain(pairs[i].0) && Plain(pairs[i].1)
    ensures Readable(Printed(pairs), name)
    ensures Lookup(Printed(pairs), name)
      == var v := FirstValue(pairs, name); if v.Some? then Escape(v.value) else ""
  {
    if pairs == [] {
    } else {
      PrintedReadsBack(pairs[1..], name);
      assert Printed(pairs)[1..] == Printed(pairs[1..]);
      EscapeStaysPlain(None, pairs[0].1);
      PairReadsBack(pairs[0].0, Escape(pairs[0].1));
    }
  }

  // text_attrib(get_dict_attributes(e), name) is the escaped value of the first pair of that name, the
  // lemma being called lem, and empty when there is none.
  lemma DictionaryRoundTrip(e: DictEntry, name: string)
    requires PlainEntry(e)
    ensures ReadableText(EntryText(e.lem, e.pairs))
    ensures var tokens := Runs(DictText(EntryText(e.lem, e.pairs)), " ");
      && Readable(tokens, name)
      && Lookup(tokens, name) == var v := FirstValue(AllPairs(e), name); if v.Some? then Escape(v.value) else ""
  {
    hide Escape, Runs, Lookup, Readable, DictText, ReadableText, EntryText;
    EntryIsPrinted(e);
    var pairs := AllPairs(e);
    var printed := Printed(pairs);
    forall i | 0 <= i < |pairs|
      ensures pairs[i].0 != "" && Plain(pairs[i].0) && Plain(pairs[i].1)
      ensures printed[i] != "" && Free(printed[i], " ")
    {
      PlainPairs(e, i);
      EscapeStaysPlainString(pairs[i].1);
      PairReadsBack(pairs[i].0, Escape(pairs[i].1));
    }
    PrintedReadsBack(pairs, name);
    FirstThenSpaced(printed);
  }

  lemma EscapeStaysPlainString(s: string)
    requires Plain(s)
    ensures Plain(Escape(s))
  {
    EscapeStaysPlain(None, s);
  }

  lemma PlainPairs(e: DictEntry, i: nat)
    requires PlainEntry(e) && i <= |e.pairs|
    ensures AllPairs(e)[i].0 != "" && Plain(AllPairs(e)[i].0) && Plain(AllPairs(e)[i].1)
  {
    if i == 0 {
      FreePart(e.lem, " ='<>", " ='");
    } else {
      FreePart(e.pairs[i - 1].0, " ='<>", " ='");
      FreePart(e.pairs[i - 1].1, " ='<>", " ='");
    }
  }

  lemma {:induction false} FirstThenSpaced(tokens: seq<string>)
    requires tokens != [] && forall i :: 0 <= i < |tokens| ==> tokens[i] != "" && Free(tokens[i], " ")
    ensures Runs(tokens[0] + Spaced(tokens[1..]), " ") == tokens
  {
    var n := |tokens| - 1;
    if n == 0 {
      RunsOfOne(tokens[0], " ");
      assert tokens[0] + Spaced(tokens[1..]) == tokens[0];
    } else {
      FirstThenSpaced(tokens[..n]);
      assert tokens[..n][1..] == tokens[1..n] && tokens[1..][..n - 1] == tokens[1..n];
      RunsOfSnoc("", tokens[0] + Spaced(tokens[1..n]), tokens[n], " ", ' ');
      assert tokens[0] + Spaced(tokens[1..]) == tokens[0] + Spaced(tokens[1..n]) + [' '] + tokens[n];
    }
  }
}
