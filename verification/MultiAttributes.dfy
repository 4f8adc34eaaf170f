// split_multiattrib of squoia_xfer_lex.cc: attributes whose values have several parts are turned into
// one attribute text for each part number.
module MultiAttributes {
  import opened Tokens
  import opened AttributeText

  // The source reads the name and the value of every token.
  ghost predicate Splittable(tokens: seq<string>)
  {
    forall i :: 0 <= i < |tokens| ==> |Fields(tokens[i])| >= 2
  }

  function NameOf(token: string): string
    requires |Fields(token)| >= 2
  {
    Fields(token)[0]
  }

  // The parts of a value: quotes removed, cut at backslashes.
  function PartsOf(token: string): seq<string>
    requires |Fields(token)| >= 2
  {
    Runs(Without(Fields(token)[1], "'"), "\\")
  }

  // The attribute text of part number j: the tokens that have that many parts, in order.
  ghost function Column(tokens: seq<string>, j: nat): string
    requires Splittable(tokens)
  {
    if tokens == [] then ""
    else
      var n := |tokens| - 1;
      Column(tokens[..n], j)
      + (if j < |PartsOf(tokens[n])| then Pair(NameOf(tokens[n]), PartsOf(tokens[n])[j]) + " " else "")
  }

  // The largest number of parts.
  ghost function Width(tokens: seq<string>): nat
    requires Splittable(tokens)
  {
    if tokens == [] then 0
    else
      var n := |tokens| - 1;
      var width, parts := Width(tokens[..n]), |PartsOf(tokens[n])|;
      if parts > width then parts else width
  }

  // The vector while token n is being worked in, j of its parts done.
  ghost predicate Partial(tokens: seq<string>, n: nat, j: nat, result: seq<string>)
    requires n < |tokens| && Splittable(tokens)
  {
    var before, parts := Width(tokens[..n]), |PartsOf(tokens[n])|;
    && j <= parts
    && |result| == (if j > before then parts else before)
    && forall k :: 0 <= k < |result| ==>
      result[k] == if k < j then Column(tokens[..n + 1], k) else Column(tokens[..n], k)
  }

  lemma {:induction false} ColumnBeyond(tokens: seq<string>, j: nat)
    requires Splittable(tokens) && j >= Width(tokens)
    ensures Column(tokens, j) == ""
  {
    if tokens == [] {
    } else {
      ColumnBeyond(tokens[..|tokens| - 1], j);
    }
  }

  method SplitMultiattrib(str: string) returns (result: seq<string>)
    requires Splittable(Runs(str, " "))
    ensures |result| == Width(Runs(str, " "))
    ensures forall j :: 0 <= j < |result| ==> result[j] == Column(Runs(str, " "), j)
  {
    hide Runs, Without, Column, Width;
    var tokens := Tokenize(str, " ");
    result := [];
    NoTokens(tokens);
    for n := 0 to |tokens|
      invariant |result| == Width(tokens[..n])
      invariant forall j :: 0 <= j < |result| ==> result[j] == Column(tokens[..n], j)
    {
      var attribs := Tokenize(tokens[n], "=");
      var values := Tokenize2(attribs[1], "'");
      var valueparts := Tokenize(values, "\\");
      for j := 0 to |valueparts|
        invariant Partial(tokens, n, j, result)
      {
        var resultStr := attribs[0] + "='" + valueparts[j] + "' ";
        PartStep(tokens, n, j);
        ColumnBeyondAll(tokens[..n]);
        if |result| > j {
          result := result[j := result[j] + resultStr];
        } else {
          result := result + seq(|valueparts| - |result|, k => "");
          result := result[j := resultStr];
        }
      }
      TokenDone(tokens, n, result);
    }
    assert tokens[..|tokens|] == tokens;
  }

  lemma NoTokens(tokens: seq<string>)
    requires Splittable(tokens)
    ensures Width(tokens[..0]) == 0
  {
  }

  lemma ColumnBeyondAll(tokens: seq<string>)
    requires Splittable(tokens)
    ensures forall j :: j >= Width(tokens) ==> Column(tokens, j) == ""
  {
    forall j | j >= Width(tokens)
      ensures Column(tokens, j) == ""
    {
      ColumnBeyond(tokens, j);
    }
  }

  lemma PartStep(tokens: seq<string>, n: nat, j: nat)
    requires n < |tokens| && Splittable(tokens) && j < |PartsOf(tokens[n])|
    ensures Column(tokens[..n + 1], j)
      == Column(tokens[..n], j) + (NameOf(tokens[n]) + "='" + PartsOf(tokens[n])[j] + "' ")
    ensures Column(tokens[..n], j) == "" ==>
      Column(tokens[..n + 1], j) == NameOf(tokens[n]) + "='" + PartsOf(tokens[n])[j] + "' "
  {
    assert tokens[..n + 1][..n] == tokens[..n];
  }

  lemma TokenDone(tokens: seq<string>, n: nat, result: seq<string>)
    requires n < |tokens| && Splittable(tokens) && Partial(tokens, n, |PartsOf(tokens[n])|, result)
    ensures |result| == Width(tokens[..n + 1])
    ensures forall k :: 0 <= k < |result| ==> result[k] == Column(tokens[..n + 1], k)
  {
    assert tokens[..n + 1][..n] == tokens[..n];
    forall k | 0 <= k < |result|
      ensures result[k] == Column(tokens[..n + 1], k)
    {
      assert Column(tokens[..n], k) + "" == Column(tokens[..n], k);
    }
  }

  // ---- Every part is there, once, and is found again. ----

  // The attributes of part number j, as pairs.
  ghost function Cells(tokens: seq<string>, j: nat): seq<(string, string)>
    requires Splittable(tokens)
  {
    if tokens == [] then []
    else
      var n := |tokens| - 1;
      Cells(tokens[..n], j)
      + (if j < |PartsOf(tokens[n])| then [(NameOf(tokens[n]), PartsOf(tokens[n])[j])] else [])
  }

  ghost function AllParts(tokens: seq<string>): nat
    requires Splittable(tokens)
  {
    if tokens == [] then 0
    else AllParts(tokens[..|tokens| - 1]) + |PartsOf(tokens[|tokens| - 1])|
  }

  ghost function AllCells(tokens: seq<string>, width: nat): nat
    requires Splittable(tokens)
  {
    if width == 0 then 0 else AllCells(tokens, width - 1) + |Cells(tokens, width - 1)|
  }

  function Min(a: nat, b: nat): nat
  {
    if a < b then a else b
  }

  lemma CellsStep(tokens: seq<string>, j: nat)
    requires Splittable(tokens) && tokens != []
    ensures |Cells(tokens, j)|
      == |Cells(tokens[..|tokens| - 1], j)| + (if j < |PartsOf(tokens[|tokens| - 1])| then 1 else 0)
  {
  }

  lemma {:induction false} CellsOfLast(tokens: seq<string>, width: nat)
    requires Splittable(tokens) && tokens != []
    ensures AllCells(tokens, width)
      == AllCells(tokens[..|tokens| - 1], width) + Min(width, |PartsOf(tokens[|tokens| - 1])|)
  {
    hide PartsOf, NameOf, Cells, Fields;
    if width == 0 {
    } else {
      CellsOfLast(tokens, width - 1);
      CellsStep(tokens, width - 1);
    }
  }

  lemma {:induction false} CellsBeyond(tokens: seq<string>, width: nat, more: nat)
    requires Splittable(tokens) && Width(tokens) <= width <= more
    ensures AllCells(tokens, more) == AllCells(tokens, width)
    decreases more
  {
    hide PartsOf, NameOf, Cells, Fields, Width;
    if width < more {
      CellsBeyond(tokens, width, more - 1);
      NoCells(tokens, more - 1);
    }
  }

  lemma {:induction false} NoCells(tokens: seq<string>, j: nat)
    requires Splittable(tokens) && j >= Width(tokens)
    ensures Cells(tokens, j) == []
  {
    if tokens == [] {
    } else {
      NoCells(tokens[..|tokens| - 1], j);
    }
  }

  // No part is lost or duplicated: the columns hold as many attributes as the values have parts.
  lemma {:induction false} PartsAreConserved(tokens: seq<string>)
    requires Splittable(tokens)
    ensures AllCells(tokens, Width(tokens)) == AllParts(tokens)
  {
    if tokens == [] {
      assert AllCells([], 0) == 0;
    } else {
      hide PartsOf, NameOf;
      var before := tokens[..|tokens| - 1];
      PartsAreConserved(before);
      CellsOfLast(tokens, Width(tokens));
      CellsBeyond(before, Width(before), Width(tokens));
    }
  }

  // A cell is exactly a token with more than j parts.
  lemma {:induction false} CellsAreParts(tokens: seq<string>, j: nat, name: string, part: string)
    requires Splittable(tokens)
    ensures (name, part) in Cells(tokens, j) <==>
      exists i :: 0 <= i < |tokens| && NameOf(tokens[i]) == name
                  && j < |PartsOf(tokens[i])| && PartsOf(tokens[i])[j] == part
  {
    hide PartsOf, NameOf;
    if tokens == [] {
    } else {
      var n := |tokens| - 1;
      CellsAreParts(tokens[..n], j, name, part);
      assert tokens == tokens[..n] + [tokens[n]];
    }
  }

  function PairsText(cells: seq<(string, string)>): seq<string>
  {
    seq(|cells|, i requires 0 <= i < |cells| => Pair(cells[i].0, cells[i].1))
  }

  lemma FieldsArePlain(token: string)
    requires Free(token, " ") && |Fields(token)| >= 2
    ensures Fields(token)[0] != "" && Free(Fields(token)[0], " =") && Free(Fields(token)[1], " =")
  {
    RunsAreFree("", token, "=");
    RunsKeepOut("", token, "=", ' ');
  }

  // Names and parts never contain a space or an equals sign, and parts no apostrophe.
  lemma PartsArePlain(token: string, j: nat)
    requires Free(token, " ") && |Fields(token)| >= 2 && j < |PartsOf(token)|
    ensures NameOf(token) != "" && Free(NameOf(token), " =")
    ensures PartsOf(token)[j] != "" && Plain(PartsOf(token)[j])
  {
    FieldsArePlain(token);
    var value := Fields(token)[1];
    var bare := Without(value, "'");
    hide Runs, RunsFrom, Without;
    WithoutIsFree(value, "'");
    WithoutKeepsOut(value, "'", ' ');
    WithoutKeepsOut(value, "'", '=');
    assert '\'' !in bare;
    RunsKeepOut("", bare, "\\", ' ');
    RunsKeepOut("", bare, "\\", '=');
    RunsKeepOut("", bare, "\\", '\'');
    RunsOfString(bare, "\\");
    RunsIsRunsFrom(bare, "\\");
  }

  lemma RunsIsRunsFrom(s: string, delimiters: string)
    ensures Runs(s, delimiters) == RunsFrom("", s, delimiters)
  {
  }

  ghost predicate SpaceFree(tokens: seq<string>)
  {
    forall i :: 0 <= i < |tokens| ==> Free(tokens[i], " ")
  }

  // Tokenizing a column gives back its cells.
  lemma {:induction false} ColumnReadsBack(tokens: seq<string>, j: nat)
    requires Splittable(tokens) && SpaceFree(tokens)
    ensures Runs(Column(tokens, j), " ") == PairsText(Cells(tokens, j))
    ensures Column(tokens, j) == "" || Column(tokens, j)[|Column(tokens, j)| - 1] == ' '
  {
    if tokens == [] {
    } else {
      var n := |tokens| - 1;
      ColumnReadsBack(tokens[..n], j);
      if j < |PartsOf(tokens[n])| {
        PartsArePlain(tokens[n], j);
        hide PartsOf, NameOf, Fields, Runs, Pair;
        var name, part := NameOf(tokens[n]), PartsOf(tokens[n])[j];
        PairHasNoSpace(name, part);
        AppendedPair(Column(tokens[..n], j), Pair(name, part));
        assert PairsText(Cells(tokens, j)) == PairsText(Cells(tokens[..n], j)) + [Pair(name, part)];
        assert Column(tokens, j) == Column(tokens[..n], j) + (Pair(name, part) + " ");
      } else {
        hide PartsOf, NameOf, Fields, Runs, Pair;
        assert Column(tokens, j) == Column(tokens[..n], j);
        assert Cells(tokens, j) == Cells(tokens[..n], j);
      }
    }
  }

  lemma PairHasNoSpace(name: string, part: string)
    requires Free(name, " =") && Plain(part)
    ensures Pair(name, part) != "" && Free(Pair(name, part), " ")
  {
  }

  lemma AppendedPair(s: string, token: string)
    requires token != "" && Free(token, " ")
    requires s == "" || s[|s| - 1] == ' '
    ensures Runs(s + (token + " "), " ") == Runs(s, " ") + [token]
  {
    assert s + (token + " ") == s + token + [' '];
    TrailingDelimiter("", s + token, " ", ' ');
    if s == "" {
      assert s + token == token;
      RunsOfOne(token, " ");
    } else {
      var start := s[..|s| - 1];
      assert s == start + [' '];
      RunsOfSnoc("", start, token, " ", ' ');
      TrailingDelimiter("", start, " ", ' ');
    }
  }

  // Looking an attribute up in column j gives part j of the first token of that name that has one:
  // splitting and text_attrib fit together.
  lemma ColumnLookup(str: string, j: nat, name: string)
    requires Splittable(Runs(str, " "))
    ensures var cells := Cells(Runs(str, " "), j);
      var column := Runs(Column(Runs(str, " "), j), " ");
      && Readable(column, name)
      && Lookup(column, name) == var v := FirstValue(cells, name); if v.Some? then v.value else ""
  {
    hide Runs, Column, Cells, Splittable, Readable, Lookup;
    var tokens := Runs(str, " ");
    RunsOfString(str, " ");
    ColumnReadsBack(tokens, j);
    CellsArePlain(tokens, j);
    PairsLookup(Cells(tokens, j), name);
  }

  lemma {:induction false} CellsArePlain(tokens: seq<string>, j: nat)
    requires Splittable(tokens) && SpaceFree(tokens)
    ensures forall i :: 0 <= i < |Cells(tokens, j)| ==> PlainCell(Cells(tokens, j)[i])
  {
    if tokens == [] {
    } else {
      var n := |tokens| - 1;
      CellsArePlain(tokens[..n], j);
      if j < |PartsOf(tokens[n])| {
        PartsArePlain(tokens[n], j);
      }
    }
  }

  ghost predicate PlainCell(cell: (string, string))
  {
    cell.0 != "" && Free(cell.0, " =") && cell.1 != "" && Plain(cell.1)
  }

  // Names may contain apostrophes here.
  lemma CellFields(cell: (string, string))
    requires PlainCell(cell)
    ensures Fields(Pair(cell.0, cell.1)) == [cell.0, "'" + cell.1 + "'"]
    ensures Without("'" + cell.1 + "'", "'") == cell.1
  {
    PlainFree(cell.1);
    var quoted := "'" + cell.1 + "'";
    assert Pair(cell.0, cell.1) == cell.0 + ("=" + quoted);
    FreePart(cell.0, " =", "=");
    RunsOfCons(cell.0, "=" + quoted, "=");
    assert ("=" + quoted)[1..] == quoted;
    RunsOfOne(quoted, "=");
    QuotesVanish(cell.1);
  }

  lemma {:induction false} PairsLookup(cells: seq<(string, string)>, name: string)
    requires forall i :: 0 <= i < |cells| ==> PlainCell(cells[i])
    ensures Readable(PairsText(cells), name)
    ensures Lookup(PairsText(cells), name) == var v := FirstValue(cells, name); if v.Some? then v.value else ""
  {
    if cells == [] {
    } else {
      hide Fields, Pair, Without;
      PairsLookup(cells[1..], name);
      assert PairsText(cells)[1..] == PairsText(cells[1..]);
      CellFields(cells[0]);
    }
  }
}
