// The reading loop of nec.cc: rows are read field by field into variables that keep their value when a
// field is missing, a sentence is classified at each blank line, and its rows are printed again.
module NecRows {
  import opened Options
  import opened Tokens
  import opened CrfRows

  const FEATURES := 16

  // The stream variables declared outside the loop.
  datatype Vars = Vars(form: string, lc: string, lem: string, feat: string, tag: string)

  // What is kept of a row.
  datatype ReadRow = ReadRow(token: Token, lc: string, features: seq<string>)
  datatype Token = Token(form: string, lem: string, tag: string)

  // The classifier gives the word at each position of a sentence its tag.
  type Classifier = (seq<Token>, nat) -> string

  // sin >> x for field k.
  function Extracted(fields: seq<string>, k: nat, old_: string): string
  {
    if k < |fields| then fields[k] else old_
  }

  // The 16 extractions into one variable: a missing feature repeats the last one there was.
  function FeatureAt(fields: seq<string>, feat: string, n: nat): string
  {
    if n == 0 then feat else Extracted(fields, n + 2, FeatureAt(fields, feat, n - 1))
  }

  function FeaturesOf(fields: seq<string>, feat: string): seq<string>
  {
    seq(FEATURES, n requires 0 <= n => FeatureAt(fields, feat, n + 1))
  }

  function ReadInto(v: Vars, fields: seq<string>): Vars
  {
    Vars(Extracted(fields, 0, v.form), Extracted(fields, 1, v.lc), Extracted(fields, 2, v.lem),
         FeatureAt(fields, v.feat, FEATURES), Extracted(fields, 3 + FEATURES, v.tag))
  }

  // The variables after n lines; a blank line is not read into them.
  function VarsAfter(lines: seq<string>, n: nat): Vars
    requires n <= |lines|
  {
    if n == 0 then Vars("", "", "", "", "")
    else
      var v := VarsAfter(lines, n - 1);
      if lines[n - 1] == "" then v else ReadInto(v, Fields(lines[n - 1]))
  }

  function RowAt(lines: seq<string>, i: nat): ReadRow
    requires i < |lines|
  {
    var was, v := VarsAfter(lines, i), VarsAfter(lines, i + 1);
    ReadRow(Token(v.form, v.lem, v.tag), v.lc, FeaturesOf(Fields(lines[i]), was.feat))
  }

  // ---- Sentences: the lines between two blank ones. ----

  function Start(lines: seq<string>, i: nat): (r: nat)
    requires i <= |lines|
    ensures r <= i
  {
    if i == 0 || lines[i - 1] == "" then i else Start(lines, i - 1)
  }

  function End(lines: seq<string>, i: nat): (r: nat)
    requires i <= |lines|
    ensures i <= r <= |lines|
    decreases |lines| - i
  {
    if i == |lines| || lines[i] == "" then i else End(lines, i + 1)
  }

  function TokensOf(lines: seq<string>, a: nat, b: nat): (r: seq<Token>)
    requires a <= b <= |lines|
    ensures |r| == b - a
  {
    seq(b - a, j requires 0 <= j < b - a => RowAt(lines, a + j).token)
  }

  function CellsOf(row: ReadRow, tag: string): seq<string>
  {
    [row.token.form, row.lc, row.token.lem] + row.features + [tag]
  }

  // Row i printed again; a blank line for a blank line, and one more at the end.
  function PrintedLine(classify: Classifier, lines: seq<string>, i: nat): string
    requires i <= |lines|
  {
    if i == |lines| || lines[i] == "" then ""
    else
      var a, b := Start(lines, i), End(lines, i);
      Line(CellsOf(RowAt(lines, i), classify(TokensOf(lines, a, b), i - a)))
  }

  // The rows of the current sentence, which began at line a.
  ghost predicate Holds(lines: seq<string>, a: nat, b: nat, av: seq<Token>, featuresSent: seq<seq<string>>,
                        lcSent: seq<string>)
    requires a <= b <= |lines|
  {
    && av == TokensOf(lines, a, b)
    && |featuresSent| == |lcSent| == b - a
    && forall j :: 0 <= j < b - a ==>
      featuresSent[j] == RowAt(lines, a + j).features && lcSent[j] == RowAt(lines, a + j).lc
  }

  lemma HoldsMore(lines: seq<string>, a: nat, b: nat, av: seq<Token>, featuresSent: seq<seq<string>>,
                  lcSent: seq<string>)
    requires a <= b < |lines| && lines[b] != "" && Holds(lines, a, b, av, featuresSent, lcSent)
    ensures var v := ReadInto(VarsAfter(lines, b), Fields(lines[b]));
      && v == VarsAfter(lines, b + 1)
      && Holds(lines, a, b + 1, av + [Token(v.form, v.lem, v.tag)],
               featuresSent + [FeaturesOf(Fields(lines[b]), VarsAfter(lines, b).feat)], lcSent + [v.lc])
  {
    hide Fields, FeaturesOf;
    assert TokensOf(lines, a, b + 1) == TokensOf(lines, a, b) + [RowAt(lines, b).token];
  }

  function PrintedLines(classify: Classifier, lines: seq<string>, a: nat, b: nat): (r: seq<string>)
    requires a <= b <= |lines| + 1
    ensures |r| == b - a
    ensures forall j :: 0 <= j < b - a ==> r[j] == PrintedLine(classify, lines, a + j)
  {
    if a == b then [] else PrintedLines(classify, lines, a, b - 1) + [PrintedLine(classify, lines, b - 1)]
  }

  lemma {:induction false} PrintedLinesJoin(classify: Classifier, lines: seq<string>, a: nat, b: nat)
    requires a <= b <= |lines| + 1
    ensures PrintedLines(classify, lines, 0, a) + PrintedLines(classify, lines, a, b)
      == PrintedLines(classify, lines, 0, b)
  {
    hide PrintedLine;
    if a < b {
      PrintedLinesJoin(classify, lines, a, b - 1);
    }
  }

  // ---- The program. ----

  class Nec {
    const classify: Classifier
    var vars: Vars
    var av: seq<Token>
    var featuresSent: seq<seq<string>>
    var lcSent: seq<string>
    var out: seq<string>

    constructor (classify: Classifier)
      ensures this.classify == classify
      ensures vars == Vars("", "", "", "", "") && av == [] && featuresSent == [] && lcSent == [] && out == []
    {
      this.classify := classify;
      vars, av, featuresSent, lcSent, out := Vars("", "", "", "", ""), [], [], [], [];
    }

    method ReadWordLine(line: string)
      modifies this
      ensures vars == ReadInto(old(vars), Fields(line))
      ensures av == old(av) + [Token(vars.form, vars.lem, vars.tag)]
      ensures lcSent == old(lcSent) + [vars.lc]
      ensures featuresSent == old(featuresSent) + [FeaturesOf(Fields(line), old(vars).feat)]
      ensures out == old(out)
    {
      hide Fields;
      var fields := Fields(line);
      var form := Extracted(fields, 0, vars.form);
      var lc := Extracted(fields, 1, vars.lc);
      var lem := Extracted(fields, 2, vars.lem);
      lcSent := lcSent + [lc];
      var feat, features := vars.feat, [];
      for n := 0 to FEATURES
        invariant feat == FeatureAt(fields, vars.feat, n)
        invariant |features| == n && forall j :: 0 <= j < n ==> features[j] == FeatureAt(fields, vars.feat, j + 1)
        invariant vars == old(vars) && av == old(av) && featuresSent == old(featuresSent) && out == old(out)
        invariant lcSent == old(lcSent) + [lc]
      {
        feat := Extracted(fields, n + 3, feat);
        features := features + [feat];
      }
      assert features == FeaturesOf(fields, vars.feat);
      featuresSent := featuresSent + [features];
      var tag := Extracted(fields, 3 + FEATURES, vars.tag);
      vars := Vars(form, lc, lem, feat, tag);
      av := av + [Token(form, lem, tag)];
    }

    method PrintResults(ghost lines: seq<string>, ghost a: nat, ghost b: nat)
      requires a <= b <= |lines| && Holds(lines, a, b, av, featuresSent, lcSent)
      requires forall i :: a <= i < b ==> lines[i] != "" && Start(lines, i) == a && End(lines, i) == b
      requires b == |lines| || lines[b] == ""
      requires |out| == a
      modifies this`out
      ensures out == old(out) + PrintedLines(classify, lines, a, b + 1)
    {
      hide RowAt, Start, End, PrintedLine, TokensOf;
      for w := 0 to |av|
        invariant out == old(out) + PrintedLines(classify, lines, a, a + w)
      {
        var text := PrintWord(lines, a, b, w);
        out := out + [text];
      }
      EndLine(classify, lines, b);
      out := out + [""];
    }

    method PrintWord(ghost lines: seq<string>, ghost a: nat, ghost b: nat, w: nat) returns (text: string)
      requires a <= b <= |lines| && Holds(lines, a, b, av, featuresSent, lcSent) && w < |av| && a + w < b
      requires lines[a + w] != "" && Start(lines, a + w) == a && End(lines, a + w) == b
      ensures text == PrintedLine(classify, lines, a + w)
    {
      hide Start, End, FeaturesOf, Tabbed, CellsOf;
      text := av[w].form + "\t" + lcSent[w] + "\t" + av[w].lem;
      ghost var row := RowAt(lines, a + w);
      ghost var cells := [row.lc, row.token.lem];
      LineOfThree(row.token.form, row.lc, row.token.lem);
      assert cells + featuresSent[w][..0] == cells;
      for j := 0 to |featuresSent[w]|
        invariant text == row.token.form + Tabbed(cells + featuresSent[w][..j])
      {
        text := text + "\t" + featuresSent[w][j];
        OneMore(cells, featuresSent[w], j);
      }
      text := text + "\t" + classify(av, w);
      assert featuresSent[w][..|featuresSent[w]|] == row.features;
      LineOfRow(row, classify(av, w));
    }

    // main: whatever the classifier does, output line i is row i printed again.
    method Run(lines: seq<string>)
      requires vars == Vars("", "", "", "", "") && av == [] && featuresSent == [] && lcSent == [] && out == []
      modifies this
      ensures out == PrintedLines(classify, lines, 0, |lines| + 1)
    {
      hide RowAt, TokensOf, Holds, VarsAfter, ReadInto, PrintedLine, Fields, FeaturesOf, Start, End, PrintedLines;
      StartIs(lines, 0, 0);
      NothingPrinted(classify, lines);
      ghost var a := 0;
      NothingHeld(lines, 0);
      for k := 0 to |lines|
        invariant a <= k && a == Start(lines, k) && Holds(lines, a, k, av, featuresSent, lcSent)
        invariant forall i :: a <= i < k ==> lines[i] != "" && Start(lines, i) == a
        invariant vars == VarsAfter(lines, k)
        invariant out == PrintedLines(classify, lines, 0, a)
      {
        NextStart(lines, k);
        if lines[k] != "" {
          HoldsMore(lines, a, k, av, featuresSent, lcSent);
          ReadWordLine(lines[k]);
        } else {
          EndsAt(lines, a, k);
          PrintResults(lines, a, k);
          PrintedLinesJoin(classify, lines, a, k + 1);
          av, featuresSent, lcSent := [], [], [];
          a := k + 1;
          NothingHeld(lines, a);
          BlankIsNotRead(lines, k);
        }
      }
      EndsAt(lines, a, |lines|);
      PrintResults(lines, a, |lines|);
      PrintedLinesJoin(classify, lines, a, |lines| + 1);
    }
  }

  lemma {:induction false} EndsAt(lines: seq<string>, a: nat, b: nat)
    requires a <= b <= |lines| && (b == |lines| || lines[b] == "")
    requires forall i :: a <= i < b ==> lines[i] != ""
    ensures forall i :: a <= i < b ==> End(lines, i) == b
    decreases b - a
  {
    if a < b {
      EndsAt(lines, a + 1, b);
      assert End(lines, b) == b;
    }
  }

  lemma NextStart(lines: seq<string>, k: nat)
    requires k < |lines|
    ensures Start(lines, k + 1) == if lines[k] == "" then k + 1 else Start(lines, k)
  {
  }

  lemma NothingHeld(lines: seq<string>, a: nat)
    requires a <= |lines|
    ensures Holds(lines, a, a, [], [], [])
    ensures VarsAfter(lines, 0) == Vars("", "", "", "", "")
  {
    assert TokensOf(lines, a, a) == [];
  }

  lemma NothingPrinted(classify: Classifier, lines: seq<string>)
    ensures PrintedLines(classify, lines, 0, 0) == []
  {
  }

  lemma BlankIsNotRead(lines: seq<string>, k: nat)
    requires k < |lines| && lines[k] == ""
    ensures VarsAfter(lines, k + 1) == VarsAfter(lines, k)
  {
  }

  lemma EndLine(classify: Classifier, lines: seq<string>, b: nat)
    requires b <= |lines| && (b == |lines| || lines[b] == "")
    ensures PrintedLine(classify, lines, b) == ""
  {
  }

  lemma LineOfThree(u: string, v: string, w: string)
    ensures u + Tabbed([v, w]) == u + "\t" + v + "\t" + w
  {
    assert [] + [v, w] == [v, w];
    TabbedTwo([], v, w);
  }

  lemma OneMore(cells: seq<string>, features: seq<string>, j: nat)
    requires j < |features|
    ensures Tabbed(cells + features[..j + 1]) == Tabbed(cells + features[..j]) + "\t" + features[j]
  {
    assert cells + features[..j + 1] == cells + features[..j] + [features[j]];
    TabbedTwo(cells + features[..j], features[j], "");
  }

  lemma LineOfRow(row: ReadRow, tag: string)
    ensures Line(CellsOf(row, tag)) == row.token.form + Tabbed([row.lc, row.token.lem] + row.features) + "\t" + tag
  {
    var cells := [row.lc, row.token.lem] + row.features;
    assert CellsOf(row, tag)[1..] == cells + [tag];
    TabbedTwo(cells, tag, "");
  }

  // ---- What a reader of the output gets. ----

  // Of a row of at least 19 fields columns 0 to 18 come out as they were read.
  lemma ColumnsAreKept(lines: seq<string>, i: nat, tag: string)
    requires i < |lines| && lines[i] != "" && |Fields(lines[i])| >= 19
    ensures CellsOf(RowAt(lines, i), tag)[..19] == Fields(lines[i])[..19]
  {
    var fields := Fields(lines[i]);
    var cells := CellsOf(RowAt(lines, i), tag);
    forall k | 3 <= k < 19
      ensures cells[k] == fields[k]
    {
      assert cells[k] == FeatureAt(fields, VarsAfter(lines, i).feat, k - 2);
    }
  }

  // The last row up to i that has a class of its own.
  function ClassSource(lines: seq<string>, i: nat): (r: Option<nat>)
    requires i < |lines|
    ensures r.Some? ==> r.value <= i && lines[r.value] != "" && |Fields(lines[r.value])| >= 20
    ensures forall k :: (if r.Some? then r.value < k else 0 <= k) && k <= i ==>
      lines[k] == "" || |Fields(lines[k])| < 20
  {
    if lines[i] != "" && |Fields(lines[i])| >= 20 then Some(i)
    else if i == 0 then None
    else ClassSource(lines, i - 1)
  }

  // The classifier is given a row's own class or, when it has none, the one last read, across
  // sentences; at the start of the input that is the empty string.
  lemma {:induction false} TagIsLastRead(lines: seq<string>, i: nat)
    requires i < |lines|
    ensures RowAt(lines, i).token.tag
      == match ClassSource(lines, i) case None => "" case Some(k) => Fields(lines[k])[19]
  {
    hide Fields;
    if i > 0 {
      TagIsLastRead(lines, i - 1);
    } else {
      assert VarsAfter(lines, 0).tag == "";
    }
    var was, v := VarsAfter(lines, i), VarsAfter(lines, i + 1);
    assert i > 0 ==> RowAt(lines, i - 1).token.tag == was.tag;
    assert v.tag == if lines[i] == "" then was.tag else Extracted(Fields(lines[i]), 19, was.tag);
  }

  lemma TagOfRow(lines: seq<string>, i: nat)
    requires i < |lines| && lines[i] != ""
    ensures RowAt(lines, i).token.tag == Extracted(Fields(lines[i]), 19, VarsAfter(lines, i).tag)
  {
    hide Fields, FeaturesOf;
  }

  // From freeling2crf to nec: of every row columns 0 to 18 are printed again, and the classifier is given
  // what stands in column 19 or, when nothing does, the class read last.
  lemma CrfRowIsPrintedAgain(w: Word, first: bool, upper: bool, lines: seq<string>, i: nat, tag: string)
    requires w.analyses != [] && IsCell(w.lcForm) && AreClean(w.analyses)
    requires i < |lines| && lines[i] == Line(Row(w, first, upper))
    ensures lines[i] != "" && |Row(w, first, upper)| >= 19
    ensures CellsOf(RowAt(lines, i), tag)[..19] == Row(w, first, upper)[..19]
    ensures var c := ClassColumn(w, first);
      RowAt(lines, i).token.tag == if c.Some? then c.value else VarsAfter(lines, i).tag
  {
    hide Fields, Row, Line, IsCell, AreClean, RowAt, VarsAfter, ClassColumn, CellsOf;
    RowFields(w, first, upper);
    ColumnsAreKept(lines, i, tag);
    TagOfRow(lines, i);
  }

  // ---- What the classifier is asked. ----

  lemma {:induction false} StartIs(lines: seq<string>, a: nat, i: nat)
    requires a <= i <= |lines| && (a == 0 || lines[a - 1] == "") && forall k :: a <= k < i ==> lines[k] != ""
    ensures Start(lines, i) == a
  {
    if a < i {
      StartIs(lines, a, i - 1);
    }
  }

  lemma {:induction false} EndIs(lines: seq<string>, i: nat, b: nat)
    requires i <= b <= |lines| && (b == |lines| || lines[b] == "") && forall k :: i <= k < b ==> lines[k] != ""
    ensures End(lines, i) == b
    decreases b - i
  {
    if i < b {
      EndIs(lines, i + 1, b);
    }
  }

  // Of each sentence, the lines between two blank ones, row j is printed with the tag at position j, all its tokens
  // being given to the classifier.
  lemma SentenceIsClassified(classify: Classifier, lines: seq<string>, a: nat, b: nat, j: nat)
    requires a <= b <= |lines| && (a == 0 || lines[a - 1] == "") && (b == |lines| || lines[b] == "")
    requires (forall k :: a <= k < b ==> lines[k] != "") && j < b - a
    ensures var tokens := seq(b - a, k requires 0 <= k < b - a => RowAt(lines, a + k).token);
      PrintedLine(classify, lines, a + j) == Line(CellsOf(RowAt(lines, a + j), classify(tokens, j)))
  {
    hide RowAt, CellsOf;
    StartIs(lines, a, a + j);
    EndIs(lines, a + j, b);
    assert TokensOf(lines, a, b) == seq(b - a, k requires 0 <= k < b - a => RowAt(lines, a + k).token);
  }

  ghost predicate IsFeature(fields: seq<string>, feat: string, features: seq<string>, n: nat)
    requires n < |features|
  {
    features[n] == if n + 3 < |fields| then fields[n + 3] else if n == 0 then feat else features[n - 1]
  }

  // Of a row that is not blank every field there is takes its variable, a missing one leaves it, and a missing
  // feature repeats the one before it.
  lemma FieldsAreTaken(lines: seq<string>, i: nat)
    requires i < |lines| && lines[i] != ""
    ensures var fields, was, row := Fields(lines[i]), VarsAfter(lines, i), RowAt(lines, i);
      && row.token.form == (if fields == [] then was.form else fields[0])
      && row.lc == (if |fields| > 1 then fields[1] else was.lc)
      && row.token.lem == (if |fields| > 2 then fields[2] else was.lem)
      && row.token.tag == (if |fields| > 19 then fields[19] else was.tag)
      && |row.features| == FEATURES
      && forall n :: 0 <= n < FEATURES ==> IsFeature(fields, was.feat, row.features, n)
    ensures VarsAfter(lines, i + 1).feat == RowAt(lines, i).features[FEATURES - 1]
  {
    hide Fields, FeatureAt;
    var fields, was, row := Fields(lines[i]), VarsAfter(lines, i), RowAt(lines, i);
    NoFeatureRead(fields, was.feat);
    forall n | 0 <= n < FEATURES
      ensures IsFeature(fields, was.feat, row.features, n)
    {
      FeatureStep(fields, was.feat, n);
    }
  }

  lemma NoFeatureRead(fields: seq<string>, feat: string)
    ensures FeatureAt(fields, feat, 0) == feat
  {
  }

  lemma FeatureStep(fields: seq<string>, feat: string, n: nat)
    ensures FeatureAt(fields, feat, n + 1) == if n + 3 < |fields| then fields[n + 3] else FeatureAt(fields, feat, n)
  {
  }
}
