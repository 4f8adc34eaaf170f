// freeling2crf of output_crf.cc: one tab-separated row a word, with the lemma and tag of each analysis
// that is not held back, padding, an ambiguity flag and, when only one tag is left, the class.
module CrfRows {
  import opened Options
  import opened Strings
  import opened Tokens

  const MAXTAG := 8
  const DUMMY := "ZZZ"

  datatype Analysis = Analysis(lem: string, tag: string)

  // A word and its selected analyses.
  datatype Word = Word(form: string, lcForm: string, analyses: seq<Analysis>)

  predicate StartsNP(a: Analysis)
  {
    "NP" <= a.tag
  }

  // find(L"G0000") is 2 in the tag, and the form has the letters of a gerund.
  predicate IsGerund(form: string, a: Analysis)
  {
    && 2 < |a.tag| && FindText(a.tag, "G0000", 0) == 2
    && (Contains(form, "ando") || Contains(form, "\U{00E1}ndo")
        || Contains(form, "endo") || Contains(form, "\U{00E9}ndo"))
  }

  // ---- Which analyses are printed. ----

  // Analyses after a gerund are not looked at.
  function Considered(form: string, analyses: seq<Analysis>): (r: seq<Analysis>)
    ensures |r| <= |analyses| && r == analyses[..|r|]
    ensures forall k :: 0 <= k < |r| - 1 ==> !IsGerund(form, r[k])
    ensures |r| < |analyses| ==> r != [] && IsGerund(form, r[|r| - 1])
  {
    hide IsGerund, FindText;
    if analyses == [] then []
    else if IsGerund(form, analyses[0]) then [analyses[0]]
    else
      var later := Considered(form, analyses[1..]);
      OneMoreConsidered(form, analyses, later);
      [analyses[0]] + later
  }

  lemma OneMoreConsidered(form: string, analyses: seq<Analysis>, later: seq<Analysis>)
    requires analyses != [] && !IsGerund(form, analyses[0])
    requires |later| < |analyses| && later == analyses[1..][..|later|]
    requires forall k :: 0 <= k < |later| - 1 ==> !IsGerund(form, later[k])
    ensures var r := [analyses[0]] + later;
      r == analyses[..|r|] && forall k :: 0 <= k < |r| - 1 ==> !IsGerund(form, r[k])
  {
    hide IsGerund;
    var r := [analyses[0]] + later;
    assert forall k :: 1 <= k < |r| ==> r[k] == later[k - 1];
  }

  // A proper noun at the start of a sentence is held back.
  predicate HeldBack(form: string, first: bool, a: Analysis)
  {
    first && StartsNP(a) && !IsGerund(form, a)
  }

  function Kept(form: string, first: bool, analyses: seq<Analysis>): (r: seq<Analysis>)
    ensures |r| <= |analyses|
    ensures r == [] <==> forall k :: 0 <= k < |analyses| ==> HeldBack(form, first, analyses[k])
  {
    if analyses == [] then []
    else
      var k := |analyses| - 1;
      Kept(form, first, analyses[..k]) + (if HeldBack(form, first, analyses[k]) then [] else [analyses[k]])
  }

  // Proper nouns are printed only when there is nothing else.
  function Printed(w: Word, first: bool): seq<Analysis>
  {
    var seen := Considered(w.form, w.analyses);
    var kept := Kept(w.form, first, seen);
    if kept == [] then seen else kept
  }

  // notNPtag.
  function PlainTag(form: string, first: bool, analyses: seq<Analysis>): string
  {
    if analyses == [] then ""
    else
      var k := |analyses| - 1;
      if HeldBack(form, first, analyses[k]) || IsGerund(form, analyses[k]) then PlainTag(form, first, analyses[..k])
      else analyses[k].tag
  }

  function Held(w: Word, first: bool): nat
  {
    var seen := Considered(w.form, w.analyses);
    |seen| - |Kept(w.form, first, seen)|
  }

  function Class(w: Word, first: bool): Option<string>
    requires w.analyses != []
  {
    if w.analyses[0].tag == "Z" then None
    else if |w.analyses| == 1 then Some(w.analyses[0].tag)
    else if |w.analyses| - Held(w, first) == 1 then
      Some(PlainTag(w.form, first, Considered(w.form, w.analyses)))
    else None
  }

  // ---- The row. ----

  function Cells(analyses: seq<Analysis>): (r: seq<string>)
    ensures |r| == 2 * |analyses|
    ensures forall k :: 0 <= k < |analyses| ==> r[2 * k] == analyses[k].lem && r[2 * k + 1] == analyses[k].tag
  {
    if analyses == [] then []
    else
      var k := |analyses| - 1;
      Cells(analyses[..k]) + [analyses[k].lem, analyses[k].tag]
  }

  function Dummies(n: int): (r: seq<string>)
    ensures |r| == 2 * (if n < 0 then 0 else n)
    ensures forall k :: 0 <= k < |r| ==> r[k] == DUMMY
  {
    if n <= 0 then [] else Dummies(n - 1) + [DUMMY, DUMMY]
  }

  // The columns after the form up to the flag.
  function Columns(w: Word, first: bool, upper: bool): seq<string>
  {
    [if upper then "uc" else "lc"]
    + Cells(Printed(w, first)) + Dummies(MAXTAG - |Printed(w, first)|)
    + [if |w.analyses| > 1 then "1" else "0"]
  }

  function Row(w: Word, first: bool, upper: bool): seq<string>
    requires w.analyses != []
  {
    [w.lcForm] + (Columns(w, first, upper) + (var c := Class(w, first); if c.Some? then [c.value] else []))
  }

  // Each cell with a tab before it.
  function Tabbed(cells: seq<string>): string
  {
    if cells == [] then "" else Tabbed(cells[..|cells| - 1]) + "\t" + cells[|cells| - 1]
  }

  function Line(cells: seq<string>): string
    requires cells != []
  {
    cells[0] + Tabbed(cells[1..])
  }

  lemma {:induction false} TabbedAppend(us: seq<string>, vs: seq<string>)
    ensures Tabbed(us + vs) == Tabbed(us) + Tabbed(vs)
  {
    if vs == [] {
      assert us + vs == us;
    } else {
      var k := |vs| - 1;
      TabbedAppend(us, vs[..k]);
      assert (us + vs)[..|us + vs| - 1] == us + vs[..k];
    }
  }

  lemma TabbedTwo(cells: seq<string>, u: string, v: string)
    ensures Tabbed(cells + [u, v]) == Tabbed(cells) + "\t" + u + "\t" + v
    ensures Tabbed(cells + [u]) == Tabbed(cells) + "\t" + u
  {
    assert (cells + [u, v])[..|cells| + 1] == cells + [u];
    assert (cells + [u])[..|cells|] == cells;
  }

  // ---- Writing one word. ----

  function HeldOnly(form: string, first: bool, analyses: seq<Analysis>): (r: seq<Analysis>)
    ensures |r| + |Kept(form, first, analyses)| == |analyses|
    ensures Kept(form, first, analyses) == [] ==> r == analyses
  {
    if analyses == [] then []
    else
      var k := |analyses| - 1;
      HeldOnly(form, first, analyses[..k]) + (if HeldBack(form, first, analyses[k]) then [analyses[k]] else [])
  }

  // What the loop over the analyses has written, kept for later and counted.
  datatype Progress = Progress(cells: seq<string>, npCells: seq<string>, npTag: nat, plain: string)

  function Done(form: string, first: bool, analyses: seq<Analysis>): (r: Progress)
    ensures r.npTag + |Kept(form, first, analyses)| == |analyses|
  {
    var np := HeldOnly(form, first, analyses);
    Progress(Cells(Kept(form, first, analyses)), Cells(np), |np|, PlainTag(form, first, analyses))
  }

  lemma KeptSnoc(form: string, first: bool, analyses: seq<Analysis>, a: Analysis)
    ensures Kept(form, first, analyses + [a])
      == if HeldBack(form, first, a) then Kept(form, first, analyses) else Kept(form, first, analyses) + [a]
    ensures HeldOnly(form, first, analyses + [a])
      == if HeldBack(form, first, a) then HeldOnly(form, first, analyses) + [a] else HeldOnly(form, first, analyses)
    ensures PlainTag(form, first, analyses + [a])
      == if HeldBack(form, first, a) || IsGerund(form, a) then PlainTag(form, first, analyses) else a.tag
  {
    hide IsGerund, HeldBack;
    assert (analyses + [a])[..|analyses|] == analyses;
  }

  lemma CellsSnoc(analyses: seq<Analysis>, a: Analysis)
    ensures Cells(analyses + [a]) == Cells(analyses) + [a.lem, a.tag]
  {
    assert (analyses + [a])[..|analyses|] == analyses;
  }

  lemma DoneSnoc(form: string, first: bool, analyses: seq<Analysis>, a: Analysis)
    ensures var was := Done(form, first, analyses);
      Done(form, first, analyses + [a])
      == if HeldBack(form, first, a) then was.(npCells := was.npCells + [a.lem, a.tag], npTag := was.npTag + 1)
         else was.(cells := was.cells + [a.lem, a.tag], plain := if IsGerund(form, a) then was.plain else a.tag)
  {
    hide IsGerund, HeldBack, Kept, HeldOnly, PlainTag, Cells;
    KeptSnoc(form, first, analyses, a);
    CellsSnoc(Kept(form, first, analyses), a);
    CellsSnoc(HeldOnly(form, first, analyses), a);
  }

  lemma {:induction false} ConsideredIs(form: string, analyses: seq<Analysis>, n: nat)
    requires n <= |analyses|
    requires forall k :: 0 <= k < n - 1 ==> !IsGerund(form, analyses[k])
    requires n == |analyses| || (n > 0 && IsGerund(form, analyses[n - 1]))
    ensures Considered(form, analyses) == analyses[..n]
  {
    hide IsGerund;
    if analyses != [] && !IsGerund(form, analyses[0]) {
      ConsideredIs(form, analyses[1..], n - 1);
      assert analyses[..n] == [analyses[0]] + analyses[1..][..n - 1];
    }
  }

  // The loop over the analyses: i analyses have been looked at when it ends.
  method WriteAnalyses(w: Word, first: bool)
    returns (out: string, npStr: string, i: nat, npTag: nat, notNPtag: string)
    ensures i == |Considered(w.form, w.analyses)|
    ensures var d := Done(w.form, first, Considered(w.form, w.analyses));
      out == Tabbed(d.cells) && npStr == Tabbed(d.npCells) && npTag == d.npTag && notNPtag == d.plain
  {
    hide IsGerund, HeldBack, Done, Tabbed, Considered;
    out, npStr, notNPtag, i, npTag := "", "", "", 0, 0;
    NothingDone(w.form, first);
    assert w.analyses[..0] == [];
    for k := 0 to |w.analyses|
      invariant i == k
      invariant forall j :: 0 <= j < k ==> !IsGerund(w.form, w.analyses[j])
      invariant var d := Done(w.form, first, w.analyses[..k]);
        out == Tabbed(d.cells) && npStr == Tabbed(d.npCells) && npTag == d.npTag && notNPtag == d.plain
    {
      var a := w.analyses[k];
      ghost var was := Done(w.form, first, w.analyses[..k]);
      assert w.analyses[..k + 1] == w.analyses[..k] + [a];
      DoneSnoc(w.form, first, w.analyses[..k], a);
      TabbedTwo(was.cells, a.lem, a.tag);
      TabbedTwo(was.npCells, a.lem, a.tag);
      GerundIsNotHeldBack(w.form, first, a);
      if IsGerund(w.form, a) {
        out := out + "\t" + a.lem + "\t" + a.tag;
        i := i + 1;
        ConsideredIs(w.form, w.analyses, k + 1);
        return;
      }
      if first && StartsNP(a) {
        npTag := npTag + 1;
        npStr := npStr + ("\t" + a.lem + "\t" + a.tag);
        assert npStr == Tabbed(was.npCells) + "\t" + a.lem + "\t" + a.tag;
      } else {
        notNPtag := a.tag;
        out := out + "\t" + a.lem + "\t" + notNPtag;
      }
      i := i + 1;
    }
    assert w.analyses[..|w.analyses|] == w.analyses;
    ConsideredIs(w.form, w.analyses, |w.analyses|);
  }

  lemma NothingDone(form: string, first: bool)
    ensures Done(form, first, []) == Progress([], [], 0, "") && Tabbed([]) == ""
  {
  }

  lemma GerundIsNotHeldBack(form: string, first: bool, a: Analysis)
    ensures HeldBack(form, first, a) <==> first && StartsNP(a) && !IsGerund(form, a)
  {
  }

  // All columns after the form, up to the flag. When padding starts, i is the number of pairs printed.
  method WriteColumns(w: Word, first: bool, upper: bool) returns (out: string, npTag: nat, notNPtag: string)
    ensures out == Tabbed(Columns(w, first, upper))
    ensures npTag == Held(w, first) && notNPtag == PlainTag(w.form, first, Considered(w.form, w.analyses))
  {
    hide IsGerund, HeldBack, Tabbed, Considered, Kept, PlainTag, Cells, Dummies, HeldOnly;
    ghost var cells := [if upper then "uc" else "lc"];
    out := "\t" + (if upper then "uc" else "lc");
    TabbedOne(cells[0]);
    var text, npStr, i;
    text, npStr, i, npTag, notNPtag := WriteAnalyses(w, first);
    out := out + text;
    if npTag == i {
      NoCells();
      out := out + npStr;
    } else if npTag > 0 {
      i := i - npTag;
    }
    assert i == |Printed(w, first)|;
    assert out == Tabbed(cells) + Tabbed(Cells(Printed(w, first)));
    ghost var pairs := cells + Cells(Printed(w, first));
    TabbedAppend(cells, Cells(Printed(w, first)));
    ghost var printed := i;
    NoDummies(pairs);
    while i < MAXTAG
      invariant printed <= i && (i <= MAXTAG || i == printed)
      invariant out == Tabbed(pairs + Dummies(i - printed))
      decreases MAXTAG - i
    {
      MoreDummies(pairs, i - printed);
      out := out + "\t" + DUMMY + "\t" + DUMMY;
      i := i + 1;
    }
    NoMoreDummies(i - printed, MAXTAG - printed);
    ghost var flag := if |w.analyses| > 1 then "1" else "0";
    TabbedTwo(pairs + Dummies(MAXTAG - |Printed(w, first)|), flag, "");
    out := out + "\t" + (if |w.analyses| > 1 then "1" else "0");
  }

  method FreelingToCrf(w: Word, first: bool, isUpper: char -> bool) returns (out: string)
    requires w.analyses != []
    ensures out == Line(Row(w, first, isUpper(if w.form == "" then '\0' else w.form[0])))
  {
    hide IsGerund, HeldBack, Tabbed, Considered, Kept, PlainTag, Columns, Held;
    var upper := isUpper(if w.form == "" then '\0' else w.form[0]);
    var text, npTag, notNPtag := WriteColumns(w, first, upper);
    out := w.lcForm + text;
    ghost var columns := Columns(w, first, upper);
    if w.analyses[0].tag != "Z" {
      if |w.analyses| == 1 {
        out := out + "\t" + w.analyses[0].tag;
        TabbedTwo(columns, w.analyses[0].tag, "");
      } else if |w.analyses| - npTag == 1 {
        out := out + "\t" + notNPtag;
        TabbedTwo(columns, notNPtag, "");
      }
    }
    assert columns + [] == columns;
  }

  lemma TabbedOne(cell: string)
    ensures Tabbed([cell]) == "\t" + cell && Tabbed([]) == ""
  {
  }

  lemma NoDummies(cells: seq<string>)
    ensures cells + Dummies(0) == cells
  {
  }

  lemma NoMoreDummies(n: nat, m: int)
    requires n == m || (n == 0 && m < 0)
    ensures Dummies(n) == Dummies(m)
  {
  }

  lemma MoreDummies(cells: seq<string>, n: nat)
    ensures Tabbed(cells + Dummies(n + 1)) == Tabbed(cells + Dummies(n)) + "\t" + DUMMY + "\t" + DUMMY
  {
    TabbedTwo(cells + Dummies(n), DUMMY, DUMMY);
    assert cells + Dummies(n + 1) == cells + Dummies(n) + [DUMMY, DUMMY];
  }

  lemma NoCells()
    ensures Cells([]) == [] && Tabbed([]) == ""
  {
  }

  // ---- What a row is. ----

  // At least one analysis is printed, and exactly the words with at most eight printed pairs have 19
  // columns and the class.
  lemma RowWidth(w: Word, first: bool, upper: bool)
    requires w.analyses != []
    ensures |Printed(w, first)| >= 1
    ensures |Row(w, first, upper)| == 19 + (if Class(w, first).Some? then 1 else 0) <==> |Printed(w, first)| <= MAXTAG
  {
    hide IsGerund, HeldBack, Class;
  }

  // The pairs stand in columns 2 and 3, 4 and 5, and so on, dummies up to column 17, the flag in 18.
  lemma RowColumns(w: Word, first: bool, upper: bool, k: nat)
    requires w.analyses != [] && |Printed(w, first)| <= MAXTAG && k < MAXTAG
    ensures |Row(w, first, upper)| >= 19 && Row(w, first, upper)[0] == w.lcForm
    ensures var row := Row(w, first, upper);
      (row[2 + 2 * k], row[3 + 2 * k])
      == if k < |Printed(w, first)| then (Printed(w, first)[k].lem, Printed(w, first)[k].tag) else (DUMMY, DUMMY)
    ensures Row(w, first, upper)[1] == if upper then "uc" else "lc"
    ensures Row(w, first, upper)[18] == if |w.analyses| > 1 then "1" else "0"
  {
    hide Printed, Class;
    var printed := Printed(w, first);
    var cells, dummies := Cells(printed), Dummies(MAXTAG - |printed|);
    var columns := Columns(w, first, upper);
    if k < |printed| {
      assert columns[1 + 2 * k] == cells[2 * k] && columns[2 + 2 * k] == cells[2 * k + 1];
    } else {
      assert columns[1 + 2 * k] == dummies[2 * k - |cells|] && columns[2 + 2 * k] == dummies[2 * k + 1 - |cells|];
    }
  }

  lemma {:induction false} PlainTagOfOne(form: string, first: bool, analyses: seq<Analysis>)
    ensures var kept := Kept(form, first, analyses);
      && (kept == [] ==> PlainTag(form, first, analyses) == "")
      && (|kept| == 1 ==>
            PlainTag(form, first, analyses) == if IsGerund(form, kept[0]) then "" else kept[0].tag)
  {
    hide IsGerund, HeldBack;
    if analyses == [] {
    } else {
      PlainTagOfOne(form, first, analyses[..|analyses| - 1]);
    }
  }

  // The class is there exactly when one pair is printed and no analysis was skipped, unless the first
  // tag is Z. It is the tag of that pair, but empty for a gerund that proper nouns stood before.
  lemma ClassMeaning(w: Word, first: bool)
    requires w.analyses != []
    ensures Class(w, first).Some? <==>
      && w.analyses[0].tag != "Z" && |Printed(w, first)| == 1
      && |Considered(w.form, w.analyses)| == |w.analyses|
    ensures Class(w, first).Some? ==>
      Class(w, first).value
      == if |w.analyses| > 1 && IsGerund(w.form, Printed(w, first)[0]) then "" else Printed(w, first)[0].tag
  {
    hide IsGerund;
    var seen := Considered(w.form, w.analyses);
    var kept := Kept(w.form, first, seen);
    PlainTagOfOne(w.form, first, seen);
    if |seen| < |w.analyses| {
      assert !HeldBack(w.form, first, seen[|seen| - 1]);
    }
    if |w.analyses| == 1 {
      assert kept != [] ==> kept == seen;
    }
  }

  // ---- Reading the cells of a row. ----

  const WHITESPACE := " \t\n\r\U{000B}\U{000C}"

  ghost predicate IsCell(cell: string)
  {
    cell != "" && Free(cell, WHITESPACE)
  }

  // What extraction with >> finds in a line.
  function Fields(line: string): seq<string>
  {
    Runs(line, WHITESPACE)
  }

  lemma {:induction false} FieldsOfTabbed(u: string, cells: seq<string>)
    requires IsCell(u) && forall k :: 0 <= k < |cells| ==> IsCell(cells[k])
    ensures Fields(u + Tabbed(cells)) == [u] + cells
    decreases |cells|
  {
    hide Runs, Free;
    if cells == [] {
      assert u + Tabbed(cells) == u;
      RunsOfOne(u, WHITESPACE);
    } else {
      var k := |cells| - 1;
      FieldsOfTabbed(u, cells[..k]);
      assert u + Tabbed(cells) == (u + Tabbed(cells[..k])) + ['\t'] + cells[k];
      MoreFields(u + Tabbed(cells[..k]), cells[k]);
      assert [u] + cells[..k] + [cells[k]] == [u] + cells;
    }
  }

  lemma MoreFields(s: string, cell: string)
    requires IsCell(cell)
    ensures Fields(s + ['\t'] + cell) == Fields(s) + [cell]
  {
    RunsOfSnoc("", s, cell, WHITESPACE, '\t');
  }

  // The cells of a row are read back; an empty class is not seen.
  lemma FieldsOfLine(cells: seq<string>)
    requires |cells| >= 2 && AreCells(cells[..|cells| - 1])
    requires IsCell(cells[|cells| - 1]) || cells[|cells| - 1] == ""
    ensures Fields(Line(cells)) == if cells[|cells| - 1] == "" then cells[..|cells| - 1] else cells
  {
    var k := |cells| - 1;
    if cells[k] == "" {
      var shorter := cells[..k];
      FieldsOfTabbed(cells[0], shorter[1..]);
      assert cells[1..][..k - 1] == shorter[1..];
      assert Line(cells) == Line(shorter) + "\t";
      TrailingDelimiter("", Line(shorter), WHITESPACE, '\t');
      assert [cells[0]] + shorter[1..] == shorter;
    } else {
      FieldsOfTabbed(cells[0], cells[1..]);
      assert [cells[0]] + cells[1..] == cells;
    }
  }

  ghost predicate AreClean(analyses: seq<Analysis>)
  {
    forall k :: 0 <= k < |analyses| ==> IsCell(analyses[k].lem) && IsCell(analyses[k].tag)
  }

  ghost predicate AreCells(cells: seq<string>)
  {
    forall k :: 0 <= k < |cells| ==> IsCell(cells[k])
  }

  lemma {:induction false} KeptIsClean(form: string, first: bool, analyses: seq<Analysis>)
    requires AreClean(analyses)
    ensures AreClean(Kept(form, first, analyses))
  {
    hide IsCell;
    if analyses == [] {
    } else {
      KeptIsClean(form, first, analyses[..|analyses| - 1]);
    }
  }

  lemma {:induction false} CellsAreClean(analyses: seq<Analysis>)
    requires AreClean(analyses)
    ensures AreCells(Cells(analyses))
  {
    hide IsCell;
    if analyses == [] {
    } else {
      CellsAreClean(analyses[..|analyses| - 1]);
    }
  }

  lemma JoinedAreCells(us: seq<string>, vs: seq<string>)
    requires AreCells(us) && AreCells(vs)
    ensures AreCells(us + vs)
  {
    hide IsCell;
  }

  lemma FixedAreCells()
    ensures AreCells(["uc"]) && AreCells(["lc"]) && AreCells(["0"]) && AreCells(["1"]) && IsCell(DUMMY)
  {
  }

  lemma DummiesAreClean(n: int)
    ensures AreCells(Dummies(n))
  {
    FixedAreCells();
    hide IsCell;
  }

  lemma PrintedIsClean(w: Word, first: bool)
    requires AreClean(w.analyses)
    ensures AreClean(Printed(w, first))
  {
    hide IsCell, IsGerund;
    KeptIsClean(w.form, first, Considered(w.form, w.analyses));
  }

  lemma ColumnsAreClean(w: Word, first: bool, upper: bool)
    requires AreClean(w.analyses)
    ensures AreCells(Columns(w, first, upper))
  {
    hide IsCell, Printed, Cells, Dummies, AreCells, AreClean;
    FixedAreCells();
    PrintedIsClean(w, first);
    CellsAreClean(Printed(w, first));
    DummiesAreClean(MAXTAG - |Printed(w, first)|);
    var start := [if upper then "uc" else "lc"];
    JoinedAreCells(start, Cells(Printed(w, first)));
    JoinedAreCells(start + Cells(Printed(w, first)), Dummies(MAXTAG - |Printed(w, first)|));
    JoinedAreCells(start + Cells(Printed(w, first)) + Dummies(MAXTAG - |Printed(w, first)|),
                   [if |w.analyses| > 1 then "1" else "0"]);
  }

  lemma ColumnsEnd(w: Word, first: bool, upper: bool)
    ensures var columns := Columns(w, first, upper);
      columns != [] && columns[|columns| - 1] != ""
  {
    hide Printed;
  }

  // All cells of a row can be read back but a class that is empty.
  lemma RowIsClean(w: Word, first: bool, upper: bool)
    requires w.analyses != [] && IsCell(w.lcForm) && AreClean(w.analyses)
    ensures var row := Row(w, first, upper);
      AreCells(row[..|row| - 1]) && (row[|row| - 1] == "" || IsCell(row[|row| - 1]))
    ensures Class(w, first).None? ==> Row(w, first, upper)[|Row(w, first, upper)| - 1] != ""
    ensures Class(w, first).Some? ==> Row(w, first, upper)[|Row(w, first, upper)| - 1] == Class(w, first).value
  {
    hide IsCell, Columns, Printed, Class;
    ColumnsAreClean(w, first, upper);
    ColumnsEnd(w, first, upper);
    ClassMeaning(w, first);
    PrintedIsClean(w, first);
  }

  // With more than eight pairs there is no padding and no class, and column 19 is the ninth tag.
  lemma LongRow(w: Word, first: bool, upper: bool)
    requires w.analyses != [] && |Printed(w, first)| > MAXTAG
    ensures Class(w, first) == None && |Row(w, first, upper)| >= 21
    ensures Row(w, first, upper)[19] == Printed(w, first)[MAXTAG].tag
  {
    hide Printed, Class, Columns;
    ClassMeaning(w, first);
    LongColumns(w, first, upper);
  }

  lemma LongColumns(w: Word, first: bool, upper: bool)
    requires |Printed(w, first)| > MAXTAG
    ensures |Columns(w, first, upper)| >= 20 && Columns(w, first, upper)[18] == Printed(w, first)[MAXTAG].tag
  {
    hide Printed, Cells;
    var cells := Cells(Printed(w, first));
    assert cells[2 * MAXTAG + 1] == Printed(w, first)[MAXTAG].tag;
    assert Columns(w, first, upper)[18] == cells[17];
  }

  // What is taken for the class: the ninth tag of a row with more than eight pairs, and otherwise a class
  // that is not empty.
  function ClassColumn(w: Word, first: bool): Option<string>
    requires w.analyses != []
  {
    if |Printed(w, first)| > MAXTAG then Some(Printed(w, first)[MAXTAG].tag)
    else if Class(w, first) == Some("") then None
    else Class(w, first)
  }

  // Extraction finds columns 0 to 18 of every row, and in column 19 what is taken for the class.
  lemma RowFields(w: Word, first: bool, upper: bool)
    requires w.analyses != [] && IsCell(w.lcForm) && AreClean(w.analyses)
    ensures Line(Row(w, first, upper)) != "" && |Row(w, first, upper)| >= 19
    ensures var fields := Fields(Line(Row(w, first, upper)));
      && |fields| >= 19 && fields[..19] == Row(w, first, upper)[..19]
      && (if |fields| >= 20 then ClassColumn(w, first) == Some(fields[19]) else ClassColumn(w, first) == None)
  {
    hide Row, Fields, IsCell, AreClean, Printed, Class, Line, AreCells, ClassColumn;
    var row := Row(w, first, upper);
    RowEnd(w, first, upper);
    RowIsClean(w, first, upper);
    FieldsOfLine(row);
    RowStart(w, first, upper);
    LineIsNotEmpty(row);
  }

  // Without the empty class a row ends behind column 18 or goes on with what is taken for the class.
  lemma RowEnd(w: Word, first: bool, upper: bool)
    requires w.analyses != [] && IsCell(w.lcForm) && AreClean(w.analyses)
    ensures var row := Row(w, first, upper);
      var n := |row| - (if row != [] && row[|row| - 1] == "" then 1 else 0);
      n >= 19 && ClassColumn(w, first) == if n >= 20 then Some(row[19]) else None
  {
    hide Row, IsCell, AreClean, Printed, Class, AreCells;
    RowIsClean(w, first, upper);
    if |Printed(w, first)| > MAXTAG {
      LongRow(w, first, upper);
    } else {
      ShortRow(w, first, upper);
    }
  }

  lemma ShortRow(w: Word, first: bool, upper: bool)
    requires w.analyses != [] && |Printed(w, first)| <= MAXTAG
    ensures |Row(w, first, upper)| == 19 + (if Class(w, first).Some? then 1 else 0)
    ensures Class(w, first).Some? ==> Row(w, first, upper)[19] == Class(w, first).value
  {
    hide Printed, Class, Cells;
  }

  lemma RowStart(w: Word, first: bool, upper: bool)
    requires w.analyses != [] && IsCell(w.lcForm)
    ensures Row(w, first, upper) != [] && Row(w, first, upper)[0] == w.lcForm != ""
  {
  }

  lemma LineIsNotEmpty(cells: seq<string>)
    requires cells != [] && cells[0] != ""
    ensures Line(cells) != ""
  {
  }

  // ---- Which analyses count as what. ----

  // A gerund has G0000 behind two characters of its tag, and its form contains ando or endo, with or without an
  // accent on the vowel.
  lemma GerundIff(form: string, a: Analysis)
    ensures IsGerund(form, a) <==>
      && IsGerundTag(a.tag)
      && (Occurs(form, "ando") || Occurs(form, "\U{00E1}ndo") || Occurs(form, "endo") || Occurs(form, "\U{00E9}ndo"))
  {
    hide FindText, Occurs, Contains, IsGerundTag;
    ContainsIff(form, "ando");
    ContainsIff(form, "\U{00E1}ndo");
    ContainsIff(form, "endo");
    ContainsIff(form, "\U{00E9}ndo");
    TagIff(a.tag);
  }

  ghost predicate IsGerundTag(tag: string)
  {
    exists c, d, rest :: tag == [c, d] + "G0000" + rest
  }

  lemma TagIff(tag: string)
    ensures 2 < |tag| && FindText(tag, "G0000", 0) == 2 <==> IsGerundTag(tag)
  {
    hide FindText, IsGerundTag;
    if 2 < |tag| && FindText(tag, "G0000", 0) == 2 {
      GerundAt(tag);
    }
    if IsGerundTag(tag) {
      GerundFound(tag);
    }
  }

  lemma GerundAt(tag: string)
    requires 2 < |tag| && "G0000" <= tag[2..]
    ensures IsGerundTag(tag)
  {
    var rest := tag[2..][5..];
    assert tag == [tag[0], tag[1]] + "G0000" + rest;
  }

  lemma GerundFound(tag: string)
    requires IsGerundTag(tag)
    ensures 2 < |tag| && FindText(tag, "G0000", 0) == 2
  {
    hide FindText;
    var c, d, rest :| tag == [c, d] + "G0000" + rest;
    assert tag[2..] == "G0000" + rest;
    assert tag[0..][2] == tag[2] == 'G' && tag[1..][1] == tag[2];
    FindTextIs(tag, "G0000", 0, 2);
  }

  // Only at the start of a sentence are analyses held back, and of those just the proper nouns.
  lemma HeldBackIff(form: string, first: bool, a: Analysis)
    requires !IsGerund(form, a)
    ensures HeldBack(form, first, a) <==> first && exists rest :: a.tag == "NP" + rest
  {
    if "NP" <= a.tag {
      assert a.tag == "NP" + a.tag[2..];
    }
  }

  lemma {:induction false} KeptParts(form: string, first: bool, us: seq<Analysis>, vs: seq<Analysis>)
    ensures Kept(form, first, us + vs) == Kept(form, first, us) + Kept(form, first, vs)
  {
    hide HeldBack;
    if vs == [] {
      assert us + vs == us;
    } else {
      var k := |vs| - 1;
      KeptParts(form, first, us, vs[..k]);
      assert (us + vs)[..|us + vs| - 1] == us + vs[..k] && (us + vs)[|us + vs| - 1] == vs[k];
    }
  }

  // What is printed: the analyses looked at, without those held back unless that leaves none.
  lemma PrintedParts(w: Word, first: bool, us: seq<Analysis>, a: Analysis, vs: seq<Analysis>)
    requires Considered(w.form, w.analyses) == us + [a] + vs
    ensures !first ==> Printed(w, first) == us + [a] + vs
    ensures (forall x :: x in us + [a] + vs ==> HeldBack(w.form, first, x)) ==> Printed(w, first) == us + [a] + vs
    ensures (exists x :: x in us + [a] + vs && !HeldBack(w.form, first, x)) ==>
      Printed(w, first)
      == Kept(w.form, first, us) + (if HeldBack(w.form, first, a) then [] else [a]) + Kept(w.form, first, vs)
  {
    hide IsGerund, Considered;
    KeptParts(w.form, first, us + [a], vs);
    KeptParts(w.form, first, us, [a]);
    OneKept(w.form, first, a);
    hide Kept, HeldBack;
    NoneHeldBack(w.form, us + [a] + vs);
  }

  lemma OneKept(form: string, first: bool, a: Analysis)
    ensures Kept(form, first, [a]) == if HeldBack(form, first, a) then [] else [a]
  {
    assert [a][..0] == [];
  }

  lemma {:induction false} NoneHeldBack(form: string, analyses: seq<Analysis>)
    ensures Kept(form, false, analyses) == analyses
  {
    hide IsGerund;
    if analyses == [] {
    } else {
      NoneHeldBack(form, analyses[..|analyses| - 1]);
    }
  }

  // ---- The cells stand between tabs. ----

  ghost predicate NoTab(cells: seq<string>)
  {
    forall k :: 0 <= k < |cells| ==> cells[k] != "" && '\t' !in cells[k]
  }

  lemma CutMore(s: string, cell: string)
    requires cell != "" && '\t' !in cell
    ensures Runs(s + ['\t'] + cell, "\t") == Runs(s, "\t") + [cell]
  {
    RunsOfSnoc("", s, cell, "\t", '\t');
  }

  lemma {:induction false} TabbedIsCut(u: string, cells: seq<string>)
    requires NoTab([u] + cells)
    ensures Runs(u + Tabbed(cells), "\t") == [u] + cells
    decreases |cells|
  {
    hide Runs;
    assert ([u] + cells)[0] == u;
    if cells == [] {
      assert u + Tabbed(cells) == u;
      RunsOfOne(u, "\t");
    } else {
      var k := |cells| - 1;
      assert cells[k] == ([u] + cells)[k + 1];
      assert NoTab([u] + cells[..k]) by {
        assert forall j :: 0 <= j < |[u] + cells[..k]| ==> ([u] + cells[..k])[j] == ([u] + cells)[j];
      }
      TabbedIsCut(u, cells[..k]);
      assert u + Tabbed(cells) == (u + Tabbed(cells[..k])) + ['\t'] + cells[k];
      CutMore(u + Tabbed(cells[..k]), cells[k]);
      assert [u] + cells[..k] + [cells[k]] == [u] + cells;
    }
  }

  lemma LineIsCut(cells: seq<string>)
    requires cells != [] && NoTab(cells)
    ensures Runs(Line(cells), "\t") == cells
  {
    assert [cells[0]] + cells[1..] == cells;
    TabbedIsCut(cells[0], cells[1..]);
  }
}
