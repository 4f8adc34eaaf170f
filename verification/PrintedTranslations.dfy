// The attribute texts of translations, and the parts of multi-word ones, as a reader of markup takes them
// (squoia_xfer_lex.cc).
module PrintedTranslations {
  import opened Options
  import opened Strings
  import opened Tokens
  import opened TransferGrammar
  import opened Escaping
  import opened Markup
  import opened PrintedValues
  import opened KeptAttributes
  import opened ProgramLexicon
  import opened AttributeText
  import opened MultiAttributes

  // ---- A translation. ----

  ghost predicate PairsSafe(pairs: Attributes)
  {
    forall i :: 0 <= i < |pairs| ==> IsName(pairs[i].0) && FieldSafe(pairs[i].1)
  }

  lemma {:induction false} ReadsPairs(pairs: Attributes)
    ensures Reads(Spaced(Printed(pairs)), pairs, PairsSafe(pairs))
  {
    hide Reads, IsName, FieldSafe, Escape;
    if pairs == [] {
      ReadsSpaces(0);
    } else {
      var n := |pairs| - 1;
      var (name, value) := pairs[n];
      ReadsPairs(pairs[..n]);
      ReadsField(name, value);
      var before, last := Spaced(Printed(pairs[..n])), Pair(name, Escape(value));
      ReadsJoin(before, pairs[..n], PairsSafe(pairs[..n]), " " + last, [pairs[n]], IsName(name) && FieldSafe(value));
      assert Printed(pairs)[..n] == Printed(pairs[..n]) && Printed(pairs)[n] == last;
      assert before + (" " + last) == before + " " + last;
      assert pairs == pairs[..n] + [pairs[n]];
      assert PairsSafe(pairs) <==> PairsSafe(pairs[..n]) && IsName(name) && FieldSafe(value);
    }
  }

  // The attributes, each with a space in front.
  lemma TextBehindSpace(pairs: Attributes)
    requires pairs != []
    ensures Spaced(Printed(pairs)) == " " + TextOf(pairs)
  {
    hide Escape;
    var printed := Printed(pairs);
    PrintedLength(pairs);
    assert printed == [printed[0]] + printed[1..];
    SpacedCons(printed[0], printed[1..]);
    assert " " + printed[0] + Spaced(printed[1..]) == " " + (printed[0] + Spaced(printed[1..]));
  }

  lemma ReadsText(pairs: Attributes)
    ensures Reads(" " + TextOf(pairs), pairs, PairsSafe(pairs))
  {
    hide Reads, IsName, FieldSafe, Printed;
    if pairs == [] {
      ReadsSpaces(1);
      assert Spaces(1) == " " && " " + "" == " ";
    } else {
      ReadsPairs(pairs);
      TextBehindSpace(pairs);
    }
  }

  lemma PrintedLength(pairs: Attributes)
    ensures |Printed(pairs)| == |pairs|
  {
  }

  // ---- The parts of a multi-word translation. ----

  function CellsText(cells: seq<(string, string)>): string
  {
    if cells == [] then "" else Pair(cells[0].0, cells[0].1) + " " + CellsText(cells[1..])
  }

  lemma {:induction false} CellsTextSnoc(cells: seq<(string, string)>, last: (string, string))
    ensures CellsText(cells + [last]) == CellsText(cells) + (Pair(last.0, last.1) + " ")
  {
    if cells == [] {
      assert [] + [last] == [last] && [last][1..] == [];
    } else {
      assert (cells + [last])[1..] == cells[1..] + [last];
      CellsTextSnoc(cells[1..], last);
    }
  }

  lemma {:induction false} ColumnIsCells(tokens: seq<string>, j: nat)
    requires Splittable(tokens)
    ensures Column(tokens, j) == CellsText(Cells(tokens, j))
  {
    hide PartsOf, NameOf;
    if tokens == [] {
    } else {
      var n := |tokens| - 1;
      ColumnIsCells(tokens[..n], j);
      var cells := Cells(tokens[..n], j);
      if j < |PartsOf(tokens[n])| {
        CellsTextSnoc(cells, (NameOf(tokens[n]), PartsOf(tokens[n])[j]));
      } else {
        assert cells + [] == cells && CellsText(cells) + "" == CellsText(cells);
      }
    }
  }

  // A part of an escaped value is printed as it is.
  function CellAttributes(cells: seq<(string, string)>): Attributes
  {
    seq(|cells|, i requires 0 <= i < |cells| => (cells[i].0, Decode(cells[i].1)))
  }

  ghost predicate CellsSafe(cells: seq<(string, string)>)
  {
    forall i :: 0 <= i < |cells| ==> IsName(cells[i].0) && ReadValue(cells[i].1).Some?
  }

  lemma ReadsCell(name: string, part: string)
    requires '\'' !in part
    ensures Reads(" " + Pair(name, part), [(name, Decode(part))], IsName(name) && ReadValue(part).Some?)
  {
    hide ReadValue, Decode, IsName, Reads;
    var p := Piece(1, name, part, Decode(part));
    ReadValueDecodes(part, "");
    assert part + "" == part && (ReadValue(part).Some? ==> ReadValue(part).value + "" == ReadValue(part).value);
    NothingRead();
    assert Spaces(1) == " ";
    ReadsPiece(p);
  }

  lemma {:induction false} ReadsCells(cells: seq<(string, string)>)
    requires forall i :: 0 <= i < |cells| ==> '\'' !in cells[i].1
    ensures Reads(" " + CellsText(cells), CellAttributes(cells), CellsSafe(cells))
  {
    hide Reads, IsName, ReadValue, Decode, Pair;
    if cells == [] {
      ReadsSpaces(1);
      assert Spaces(1) == " " && " " + "" == " ";
    } else {
      var (name, part) := cells[0];
      var later := cells[1..];
      ReadsCells(later);
      ReadsCell(name, part);
      ReadsJoin(" " + Pair(name, part), [(name, Decode(part))], IsName(name) && ReadValue(part).Some?,
                " " + CellsText(later), CellAttributes(later), CellsSafe(later));
      assert " " + Pair(name, part) + (" " + CellsText(later)) == " " + (Pair(name, part) + " " + CellsText(later));
      assert CellAttributes(cells) == [(name, Decode(part))] + CellAttributes(later);
      CellsSafeStep(cells);
    }
  }

  lemma CellsSafeStep(cells: seq<(string, string)>)
    requires cells != []
    ensures CellsSafe(cells) <==> IsName(cells[0].0) && ReadValue(cells[0].1).Some? && CellsSafe(cells[1..])
  {
    hide IsName, ReadValue;
    assert cells == [cells[0]] + cells[1..];
  }

  // ---- Parts of text that can be read can be read. ----

  predicate IsCut(c: char)
  {
    c == ' ' || c == '=' || c == '\\' || c == '\''
  }

  lemma {:induction false} CutIsRead(a: string, d: char, b: string)
    requires IsCut(d) && ReadValue(a + [d] + b).Some?
    ensures ReadValue(a).Some? && ReadValue(b).Some?
    decreases |a|
  {
    hide ReadChar, ReadValue;
    var s := a + [d] + b;
    ReadStep(s);
    if a == "" {
      NothingRead();
      CutChar(d, b);
      assert s == [d] + b;
    } else {
      var later := CutStep(a, d, b);
      CutIsRead(later, d, b);
      ReadStep(a);
    }
  }

  lemma CutChar(d: char, b: string)
    requires IsCut(d)
    ensures ReadChar([d] + b) == Some((d, b))
  {
    NoEntity([d] + b);
    assert ([d] + b)[1..] == b;
  }

  lemma CutStep(a: string, d: char, b: string) returns (later: string)
    requires a != "" && IsCut(d) && ReadChar(a + [d] + b).Some?
    ensures |later| < |a| && ReadChar(a).Some? && ReadChar(a).value.1 == later
    ensures ReadChar(a + [d] + b).value.1 == later + [d] + b
  {
    if a[0] == '&' {
      later := CutEntity(a, d, b);
    } else {
      var s := a + [d] + b;
      NoEntity(a);
      NoEntity(s);
      later := a[1..];
      assert s[1..] == later + [d] + b;
    }
  }

  lemma CutEntity(a: string, d: char, b: string) returns (later: string)
    requires a != "" && a[0] == '&' && IsCut(d) && ReadChar(a + [d] + b).Some?
    ensures |later| < |a| && ReadChar(a).Some? && ReadChar(a).value.1 == later
    ensures ReadChar(a + [d] + b).value.1 == later + [d] + b
  {
    hide ReadChar;
    var s := a + [d] + b;
    var entity := WhichEntity(s);
    EntityHasNoCut(entity, d);
    forall i | 0 <= i < |entity|
      ensures s[i] != d
    {
      assert s[i] == entity[i];
    }
    assert s[|a|] == d;
    assert |entity| <= |a|;
    later := a[|entity|..];
    assert entity == s[..|entity|] == a[..|entity|];
    assert a == entity + later && s == entity + (later + [d] + b);
    OneEntity(entity, later);
    OneEntity(entity, later + [d] + b);
  }

  lemma EntityHasNoCut(entity: string, d: char)
    requires entity in {AMP, QUOT, APOS, LT, GT} && IsCut(d)
    ensures d !in entity
  {
  }

  ghost predicate AreCuts(delimiters: string)
  {
    forall i :: 0 <= i < |delimiters| ==> IsCut(delimiters[i])
  }

  ghost predicate AllRead(texts: seq<string>)
  {
    forall i :: 0 <= i < |texts| ==> ReadValue(texts[i]).Some?
  }

  lemma {:induction false} RunsAreRead(run: string, s: string, delimiters: string)
    requires AreCuts(delimiters) && ReadValue(run + s).Some?
    ensures AllRead(RunsFrom(run, s, delimiters))
    decreases |s|
  {
    hide ReadValue;
    if s == "" {
      assert run + s == run;
    } else if s[0] in delimiters {
      assert run + s == run + [s[0]] + s[1..];
      CutIsRead(run, s[0], s[1..]);
      assert "" + s[1..] == s[1..];
      RunsAreRead("", s[1..], delimiters);
    } else {
      assert run + s == run + [s[0]] + s[1..];
      RunsAreRead(run + [s[0]], s[1..], delimiters);
    }
  }

  lemma {:induction false} ReadConcat(s: string, t: string)
    requires ReadValue(s).Some? && ReadValue(t).Some?
    ensures ReadValue(s + t).Some?
    decreases |s|
  {
    hide ReadChar, ReadValue, Decode;
    if s == "" {
      assert s + t == t;
    } else {
      ReadStep(s);
      ReadCharBefore(s, t);
      ReadConcat(ReadChar(s).value.1, t);
      ReadStep(s + t);
    }
  }

  lemma {:induction false} ConcatIsRead(texts: seq<string>)
    requires AllRead(texts)
    ensures ReadValue(Concat(texts)).Some?
  {
    hide ReadValue;
    if texts == [] {
      NothingRead();
    } else {
      ConcatIsRead(texts[1..]);
      ReadConcat(texts[0], Concat(texts[1..]));
    }
  }

  lemma RunsRead(s: string, delimiters: string)
    requires AreCuts(delimiters) && ReadValue(s).Some?
    ensures AllRead(Runs(s, delimiters))
  {
    hide ReadValue;
    assert "" + s == s;
    RunsAreRead("", s, delimiters);
  }

  lemma PartsAreRead(token: string)
    requires ReadValue(token).Some? && |AttributeText.Fields(token)| >= 2
    ensures AllRead(PartsOf(token))
  {
    hide ReadValue, Runs;
    RunsRead(token, "=");
    var value := AttributeText.Fields(token)[1];
    RunsRead(value, "'");
    ConcatIsRead(Runs(value, "'"));
    RunsConcat(value, "'");
    RunsRead(Without(value, "'"), "\\");
  }

  lemma {:induction false} CellsAreRead(tokens: seq<string>, j: nat)
    requires Splittable(tokens) && AllRead(tokens)
    ensures forall i :: 0 <= i < |Cells(tokens, j)| ==> ReadValue(Cells(tokens, j)[i].1).Some?
  {
    hide ReadValue, PartsOf, NameOf;
    if tokens == [] {
    } else {
      var n := |tokens| - 1;
      CellsAreRead(tokens[..n], j);
      assert ReadValue(tokens[n]).Some?;
      PartsAreRead(tokens[n]);
    }
  }

  // The text of safe attributes can be read.
  lemma {:induction false} SafeTextIsRead(pairs: Attributes)
    requires PairsSafe(pairs)
    ensures ReadValue(Spaced(Printed(pairs))).Some?
  {
    hide ReadValue, IsName, FieldSafe, Escape;
    if pairs == [] {
      NothingRead();
    } else {
      var n := |pairs| - 1;
      var (name, value) := pairs[n];
      SafeTextIsRead(pairs[..n]);
      assert Printed(pairs)[..n] == Printed(pairs[..n]);
      var before := Spaced(Printed(pairs[..n]));
      assert IsName(pairs[n].0);
      PairIsRead(name, value);
      assert before + (" " + Pair(name, Escape(value))) == before + " " + Pair(name, Escape(value));
      ReadConcat(before, " " + Pair(name, Escape(value)));
    }
  }

  lemma PairIsRead(name: string, value: string)
    requires IsName(name)
    ensures ReadValue(" " + Pair(name, Escape(value))).Some?
  {
    hide ReadValue, Escape;
    var start := " " + name + "='";
    PlainIsRead(start);
    EscapeIsRead(value);
    PlainIsRead("'");
    ReadConcat(start, Escape(value));
    ReadConcat(start + Escape(value), "'");
    assert start + Escape(value) + "'" == " " + Pair(name, Escape(value));
  }

  lemma PlainIsRead(s: string)
    requires '<' !in s && '&' !in s
    ensures ReadValue(s) == Some(s)
  {
    ReadRawIff(s);
  }

  lemma TextIsRead(pairs: Attributes)
    requires PairsSafe(pairs)
    ensures ReadValue(TextOf(pairs)).Some?
  {
    hide ReadValue, Printed, PairsSafe, TextOf, Spaced;
    if pairs == [] {
      NoText();
      NothingRead();
    } else {
      SafeTextIsRead(pairs);
      TextBehindSpace(pairs);
      assert " " + TextOf(pairs) == "" + [' '] + TextOf(pairs);
      CutIsRead("", ' ', TextOf(pairs));
    }
  }
}
