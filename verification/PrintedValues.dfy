// Attributes as write_xml leaves them, alone or as a whole text of attributes, and when the values are read
// back (squoia_xfer_lex.cc).
module PrintedValues {
  import opened Options
  import opened Strings
  import opened TransferGrammar
  import opened Escaping
  import opened Markup

  // The escape of s in front of other text.
  function EscapeBefore(prev: Option<char>, s: string, after: string): string
    decreases |s|
  {
    if s == "" then "" else Substitute(prev, s[0], s[1..] + after) + EscapeBefore(Some(s[0]), s[1..], after)
  }

  lemma {:induction false} EscapeSplit(prev: Option<char>, s: string, t: string)
    ensures EscapeFrom(prev, s + t) == EscapeBefore(prev, s, t) + EscapeFrom(Before(prev, s), t)
    decreases |s|
  {
    hide Substitute, EscapeFrom;
    if s == "" {
      assert s + t == t && EscapeBefore(prev, s, t) + EscapeFrom(prev, t) == EscapeFrom(prev, t);
    } else {
      assert (s + t)[1..] == s[1..] + t && (s + t)[0] == s[0];
      EscapeFromStep(prev, s + t);
      EscapeSplit(Some(s[0]), s[1..], t);
      assert Before(Some(s[0]), s[1..]) == Before(prev, s);
    }
  }

  lemma {:induction false} EscapeAlone(prev: Option<char>, s: string)
    ensures EscapeFrom(prev, s) == EscapeBefore(prev, s, "")
    decreases |s|
  {
    hide Substitute;
    if s == "" {
    } else {
      assert s[1..] + "" == s[1..];
      EscapeAlone(Some(s[0]), s[1..]);
    }
  }

  // Only the first character behind matters.
  lemma {:induction false} EscapeBeforeFirst(prev: Option<char>, s: string, after: string, more: string)
    requires after != ""
    ensures EscapeBefore(prev, s, after + more) == EscapeBefore(prev, s, after)
    decreases |s|
  {
    if s == "" {
    } else {
      EscapeBeforeFirst(Some(s[0]), s[1..], after, more);
      assert s[1..] + (after + more) == (s[1..] + after) + more;
      assert (s[1..] + after + more)[0] == (s[1..] + after)[0];
    }
  }

  // What has no special character stays as it is.
  lemma {:induction false} PlainStays(prev: Option<char>, s: string, after: string)
    requires forall i :: 0 <= i < |s| ==> s[i] !in "&\"'<>"
    ensures EscapeBefore(prev, s, after) == s
    decreases |s|
  {
    if s == "" {
    } else {
      PlainStays(Some(s[0]), s[1..], after);
    }
  }

  // ---- Reading an escaped value. ----

  lemma PieceIsReadChar(prev: Option<char>, c: char, rest: string, tail: string)
    ensures var s := Substitute(prev, c, rest) + tail;
      s != "" && ReadChar(s) == Some((c, tail))
  {
    var piece := Substitute(prev, c, rest);
    if |piece| > 1 {
      OneEntity(piece, tail);
    } else {
      assert piece + tail == [piece[0]] + tail && ([piece[0]] + tail)[1..] == tail;
      NoEntity(piece + tail);
    }
  }

  lemma {:induction false} EscapedIsRead(prev: Option<char>, s: string, after: string)
    ensures ReadValue(EscapeBefore(prev, s, after)) == Some(s)
    decreases |s|
  {
    hide ReadChar, Substitute, ReadValue;
    if s == "" {
      NothingRead();
    } else {
      var tail := EscapeBefore(Some(s[0]), s[1..], after);
      EscapedIsRead(Some(s[0]), s[1..], after);
      PieceIsReadChar(prev, s[0], s[1..] + after, tail);
      ReadStep(Substitute(prev, s[0], s[1..] + after) + tail);
      assert s == [s[0]] + s[1..];
    }
  }

  // ---- Apostrophes that are kept. ----

  ghost predicate KeptAt(prev: Option<char>, s: string, after: string, i: nat)
    requires i < |s|
  {
    s[i] == '\'' && KeepsApostrophe(if i == 0 then prev else Some(s[i - 1]), s[i + 1..] + after)
  }

  lemma {:induction false} QuoteIff(prev: Option<char>, s: string, after: string)
    ensures '\'' in EscapeBefore(prev, s, after) <==> exists i: nat :: i < |s| && KeptAt(prev, s, after, i)
    decreases |s|
  {
    if s == "" {
    } else {
      QuoteIff(Some(s[0]), s[1..], after);
      hide KeepsApostrophe;
      assert '\'' in Substitute(prev, s[0], s[1..] + after) <==> KeptAt(prev, s, after, 0);
      forall i: nat | i < |s[1..]|
        ensures KeptAt(Some(s[0]), s[1..], after, i) <==> KeptAt(prev, s, after, i + 1)
      {
        assert s[1..][i + 1..] == s[i + 2..];
      }
      if i: nat :| i < |s| && KeptAt(prev, s, after, i) {
        assert i > 0 ==> KeptAt(Some(s[0]), s[1..], after, i - 1);
      }
    }
  }

  // An apostrophe behind '=' or in front of a space.
  ghost predicate Boundary(s: string, i: nat)
    requires i < |s|
  {
    s[i] == '\'' && ((i > 0 && s[i - 1] == '=') || (i + 1 < |s| && s[i + 1] == ' '))
  }

  // A value inside an attribute text that is escaped as a whole.
  ghost predicate ListedSafe(value: string)
  {
    forall i: nat :: i < |value| ==> !Boundary(value, i)
  }

  // A value that is escaped alone: it must not end in an apostrophe either.
  ghost predicate FieldSafe(value: string)
  {
    ListedSafe(value) && (value != "" ==> value[|value| - 1] != '\'')
  }

  lemma FieldQuoteIff(value: string)
    ensures '\'' !in Escape(value) <==> FieldSafe(value)
  {
    hide EscapeBefore, EscapeFrom, KeptAt, Boundary;
    EscapeAlone(None, value);
    QuoteIff(None, value, "");
    forall i: nat | i < |value|
      ensures KeptAt(None, value, "", i) <==> Boundary(value, i) || (value[i] == '\'' && i == |value| - 1)
    {
      KeptAlone(value, i);
    }
    if '\'' in Escape(value) {
      var i: nat :| i < |value| && KeptAt(None, value, "", i);
      assert !FieldSafe(value);
    }
  }

  lemma KeptAlone(value: string, i: nat)
    requires i < |value|
    ensures KeptAt(None, value, "", i) <==> Boundary(value, i) || (value[i] == '\'' && i == |value| - 1)
  {
    assert value[i + 1..] + "" == value[i + 1..];
  }

  lemma ListedQuoteIff(value: string)
    ensures '\'' !in EscapeBefore(Some('\''), value, "'") <==> ListedSafe(value)
  {
    QuoteIff(Some('\''), value, "'");
    forall i: nat | i < |value|
      ensures KeptAt(Some('\''), value, "'", i) <==> Boundary(value, i)
    {
      assert (value[i + 1..] + "'")[0] == if i + 1 < |value| then value[i + 1] else '\'';
    }
    hide EscapeBefore, KeptAt, Boundary;
  }

  // ---- Attributes that are printed. ----

  lemma HonestIfRead(p: Piece)
    requires p.gap > 0 && ReadValue(p.raw) == Some(p.value)
    ensures IsHonest(p)
  {
    hide ReadValue, Decode;
    forall k | 0 <= k < |p.raw| && p.raw[k] == '\''
      ensures ReadValue(p.raw[..k]) != Some(p.value)
    {
      ReadValueDecodes(p.raw[..k], p.raw[k..]);
      ReadValueDecodes(p.raw, "");
      assert p.raw[..k] + p.raw[k..] == p.raw && p.raw + "" == p.raw;
      NothingRead();
      SomethingDecoded(p.raw[k..]);
    }
  }

  lemma SomethingDecoded(s: string)
    requires s != ""
    ensures Decode(s) != ""
  {
  }

  // An attribute that is escaped alone.
  function FieldPiece(name: string, value: string): Piece
  {
    Piece(1, name, Escape(value), value)
  }

  lemma FieldIsRead(name: string, value: string)
    ensures IsHonest(FieldPiece(name, value))
    ensures IsReadable(FieldPiece(name, value)) <==> IsName(name) && FieldSafe(value)
  {
    hide ReadValue, Escape, FieldSafe;
    EscapeIsRead(value);
    HonestIfRead(FieldPiece(name, value));
    FieldQuoteIff(value);
  }

  lemma EscapeIsRead(value: string)
    ensures ReadValue(Escape(value)) == Some(value)
  {
    EscapeAlone(None, value);
    EscapedIsRead(None, value, "");
  }

  // An attribute that is printed as it is.
  function RawPiece(gap: nat, name: string, value: string): Piece
  {
    Piece(gap, name, value, value)
  }

  ghost predicate RawSafe(value: string)
  {
    '\'' !in value && '<' !in value && '&' !in value
  }

  lemma RawIsRead(gap: nat, name: string, value: string)
    requires gap > 0
    ensures IsHonest(RawPiece(gap, name, value))
    ensures IsReadable(RawPiece(gap, name, value)) <==> IsName(name) && RawSafe(value)
  {
    hide ReadValue;
    forall k | 0 <= k < |value| && value[k] == '\''
      ensures ReadValue(value[..k]) != Some(value)
    {
      ReadValueDecodes(value[..k], "");
    }
    ReadRawIff(value);
  }

  // ---- A whole text of attributes, as allAttrib_except writes it. ----

  function AttributesText(attributes: Attributes): string
  {
    if attributes == [] then ""
    else " " + attributes[0].0 + "='" + attributes[0].1 + "'" + AttributesText(attributes[1..])
  }

  function ListedPiece(attribute: (string, string)): Piece
  {
    Piece(1, attribute.0, EscapeBefore(Some('\''), attribute.1, "'"), attribute.1)
  }

  function ListedPieces(attributes: Attributes): seq<Piece>
  {
    seq(|attributes|, i requires 0 <= i < |attributes| => ListedPiece(attributes[i]))
  }

  lemma ListedIsRead(attribute: (string, string))
    ensures IsHonest(ListedPiece(attribute))
    ensures IsReadable(ListedPiece(attribute)) <==> IsName(attribute.0) && ListedSafe(attribute.1)
  {
    hide ReadValue, EscapeBefore, ListedSafe;
    EscapedIsRead(Some('\''), attribute.1, "'");
    HonestIfRead(ListedPiece(attribute));
    ListedQuoteIff(attribute.1);
  }

  ghost predicate HasNames(attributes: Attributes)
  {
    forall i :: 0 <= i < |attributes| ==> IsName(attributes[i].0)
  }

  // Escaped as a whole the text is the attributes, each with its value escaped between its quotes.
  lemma {:induction false} EscapedText(prev: Option<char>, attributes: Attributes)
    requires HasNames(attributes)
    ensures EscapeFrom(prev, AttributesText(attributes)) == PiecesText(ListedPieces(attributes))
    decreases |attributes|
  {
    hide IsName;
    if attributes == [] {
    } else {
      var (name, value) := attributes[0];
      var later := attributes[1..];
      EscapedText(Some('\''), later);
      EscapedAttribute(prev, name, value, AttributesText(later));
      assert AttributesText(attributes) == " " + name + "='" + value + "'" + AttributesText(later);
      assert ListedPieces(attributes)[0] == ListedPiece(attributes[0]);
      assert ListedPieces(attributes)[1..] == ListedPieces(later);
    }
  }

  lemma EscapedAttribute(prev: Option<char>, name: string, value: string, rest: string)
    requires IsName(name) && (rest == "" || rest[0] == ' ')
    ensures EscapeFrom(prev, " " + name + "='" + value + "'" + rest)
      == PieceText(ListedPiece((name, value))) + EscapeFrom(Some('\''), rest)
  {
    hide EscapeFrom, EscapeBefore;
    var start, quoted := " " + name + "=", value + "'" + rest;
    Regroup(name, value, rest);
    EscapeSplit(prev, start, "'" + quoted);
    NameIsPlain(name);
    PlainStays(prev, start, "'" + quoted);
    assert Before(prev, start) == Some('=');
    KeptQuote(Some('='), quoted);
    assert value + ("'" + rest) == quoted;
    EscapeSplit(Some('\''), value, "'" + rest);
    EscapeBeforeFirst(Some('\''), value, "'", rest);
    KeptQuote(Before(Some('\''), value), rest);
    assert Spaces(1) == " ";
    Requoted(name, EscapeBefore(Some('\''), value, "'"), EscapeFrom(Some('\''), rest));
  }

  lemma Requoted(name: string, raw: string, later: string)
    ensures " " + name + "=" + ("'" + (raw + ("'" + later))) == " " + (name + "='" + raw + "'") + later
  {
  }

  lemma Regroup(name: string, value: string, rest: string)
    ensures " " + name + "='" + value + "'" + rest == (" " + name + "=") + ("'" + (value + "'" + rest))
  {
  }

  lemma NameIsPlain(name: string)
    requires IsName(name)
    ensures forall i :: 0 <= i < |" " + name + "="| ==> (" " + name + "=")[i] !in "&\"'<>"
  {
  }

  lemma KeptQuote(prev: Option<char>, rest: string)
    requires KeepsApostrophe(prev, rest)
    ensures EscapeFrom(prev, "'" + rest) == "'" + EscapeFrom(Some('\''), rest)
  {
    assert ("'" + rest)[1..] == rest;
  }

  // ---- What a reader can have read in escaped text. ----

  predicate AllSpaces(s: string)
  {
    forall i :: 0 <= i < |s| ==> s[i] == ' '
  }

  // The text is the attributes with spaces in front of each, and spaces behind.
  ghost predicate IsSpelling(s: string, attributes: Attributes)
    decreases |attributes|
  {
    if attributes == [] then AllSpaces(s)
    else exists gap: nat, later: string ::
      SpellsFirst(s, gap, attributes[0], later) && IsSpelling(later, attributes[1..])
  }

  ghost predicate SpellsFirst(s: string, gap: nat, attribute: (string, string), later: string)
  {
    gap > 0 && s == Spaces(gap) + (attribute.0 + "='" + attribute.1 + "'" + later)
  }

  lemma SpellingStep(s: string, gap: nat, first: (string, string), later: string, more: Attributes)
    requires SpellsFirst(s, gap, first, later) && IsSpelling(later, more)
    ensures IsSpelling(s, [first] + more)
  {
    hide SpellsFirst;
    var all := [first] + more;
    assert all[1..] == more;
    assert SpellsFirst(s, gap, all[0], later) && IsSpelling(later, all[1..]);
  }

  // When the reader gets to the end of a start tag through text without brackets, it has read no further,
  // and the text decoded is a spelling of the attributes.
  lemma {:induction false} TextIsSpelled(text: string, rest: string)
    requires '<' !in text && '>' !in text && Continues(rest)
    ensures var r := ReadRest(text + (">\n" + rest));
      r.Some? && !r.value.isEmpty ==> r.value.left == "\n" + rest && IsSpelling(Decode(text), r.value.attributes)
    decreases |text|
  {
    hide ReadRest, SkipSpaces, ReadAttribute, Decode, ReadValue, IsNameChar;
    var gap := LeadingSpaces(text);
    var t, end := text[gap..], ">\n" + rest;
    assert text == Spaces(gap) + t && text + end == Spaces(gap) + (t + end);
    assert t != "" ==> t[0] == text[gap] && (t + end)[0] == t[0];
    assert gap == 0 ==> t == text;
    SpacesSkipped(gap, t + end);
    NoSpaceSkipped(t + end);
    assert SkipSpaces(text + end) == t + end;
    RestCases(text + end);
    if t == "" {
      OnlySpaces(gap);
      assert end[1..] == "\n" + rest;
    } else if t[0] != '/' && gap > 0 && ReadAttribute(t + end).Some? {
      var raw, later := AttributeWithin(t, rest);
      var first := ReadAttribute(t + end).value.0;
      TextIsSpelled(later, rest);
      var r := ReadRest(later + end);
      if r.Some? && !r.value.isEmpty {
        SpelledFirst(gap, first, raw, later);
        SpellingStep(Decode(text), gap, first, Decode(later), r.value.attributes);
      }
    }
  }

  lemma {:induction false} LeadingSpaces(s: string) returns (gap: nat)
    ensures gap <= |s| && s == Spaces(gap) + s[gap..] && (gap < |s| ==> s[gap] != ' ')
  {
    if s == "" || s[0] != ' ' {
      gap := 0;
    } else {
      var more := LeadingSpaces(s[1..]);
      gap := more + 1;
      assert s == " " + s[1..] && s[gap..] == s[1..][more..];
      assert Spaces(gap) == " " + Spaces(more);
    }
  }

  lemma NoSpaceSkipped(s: string)
    requires s != "" && s[0] != ' '
    ensures SkipSpaces(s) == s
  {
  }

  lemma RestCases(s: string)
    ensures var t := SkipSpaces(s);
      t != "" ==>
        ReadRest(s)
        == if t[0] == '>' then Some(Rest([], false, t[1..]))
           else if t[0] == '/' then if |t| > 1 && t[1] == '>' then Some(Rest([], true, t[2..])) else None
           else if |t| == |s| || ReadAttribute(t).None? then None
           else Cons(ReadAttribute(t).value.0, ReadRest(ReadAttribute(t).value.1))
  {
    hide SkipSpaces, ReadAttribute;
  }

  lemma OnlySpaces(gap: nat)
    ensures Spaces(gap) + "" == Spaces(gap) && AllSpaces(Spaces(gap)) && Decode(Spaces(gap)) == Spaces(gap)
  {
    AreSpaces(gap);
    PlainDecodes(Spaces(gap), "");
    assert Spaces(gap) + "" == Spaces(gap);
    NothingRead();
  }

  lemma {:induction false} AreSpaces(gap: nat)
    ensures AllSpaces(Spaces(gap))
  {
    if gap == 0 {
    } else {
      AreSpaces(gap - 1);
    }
  }

  lemma DecodePlain(s: string)
    requires s != "" && s[0] != '&'
    ensures Decode(s) == [s[0]] + Decode(s[1..])
  {
    NoEntity(s);
  }

  lemma {:induction false} PlainDecodes(s: string, t: string)
    requires '&' !in s
    ensures Decode(s + t) == s + Decode(t)
  {
    hide Decode;
    if s == "" {
      assert s + t == t && "" + Decode(t) == Decode(t);
    } else {
      assert (s + t)[1..] == s[1..] + t && (s + t)[0] == s[0];
      DecodePlain(s + t);
      PlainDecodes(s[1..], t);
      assert [s[0]] + (s[1..] + Decode(t)) == s + Decode(t);
    }
  }

  lemma SpelledFirst(gap: nat, first: (string, string), raw: string, later: string)
    requires IsName(first.0) && ReadValue(raw) == Some(first.1)
    ensures Decode(Spaces(gap) + (first.0 + "='" + raw + "'" + later))
      == Spaces(gap) + (first.0 + "='" + first.1 + "'" + Decode(later))
  {
    hide Decode, ReadValue;
    AreSpaces(gap);
    var (name, value) := first;
    var start := Spaces(gap) + (name + "='");
    assert Spaces(gap) + (name + "='" + raw + "'" + later) == start + (raw + ("'" + later));
    PlainDecodes(start, raw + ("'" + later));
    ReadValueDecodes(raw, "'" + later);
    PlainDecodes("'", later);
    assert start + (value + ("'" + Decode(later))) == Spaces(gap) + (name + "='" + value + "'" + Decode(later));
  }

  lemma {:induction false} ReadHasNoBracket(s: string)
    ensures ReadValue(s).Some? ==> '<' !in s
    decreases |s|
  {
    hide ReadValue, ReadChar;
    if s == "" {
    } else {
      ReadStep(s);
      if ReadChar(s).Some? {
        ReadHasNoBracket(ReadChar(s).value.1);
        CharHasNoBracket(s);
      }
    }
  }

  lemma CharHasNoBracket(s: string)
    requires s != "" && ReadChar(s).Some?
    ensures '<' in s ==> '<' in ReadChar(s).value.1
  {
    if s[0] == '&' {
      var entity := WhichEntity(s);
      assert s == entity + s[|entity|..];
      OneEntity(entity, s[|entity|..]);
      assert '<' !in entity;
    } else {
      NoEntity(s);
      assert s == [s[0]] + s[1..];
    }
  }

  // An attribute that is read ends before the end of the tag.
  lemma AttributeWithin(t: string, rest: string) returns (raw: string, later: string)
    requires '>' !in t && Continues(rest) && ReadAttribute(t + (">\n" + rest)).Some?
    ensures var r := ReadAttribute(t + (">\n" + rest)).value;
      && t == r.0.0 + "='" + raw + "'" + later && ReadValue(raw) == Some(r.0.1)
      && r.1 == later + (">\n" + rest) && |later| < |t|
  {
    hide ReadAttribute, ReadValue, NameEnd;
    var s, m := t + (">\n" + rest), |t|;
    var n, k := AttributeBounds(s, m, rest);
    raw, later := t[n + 2..k], t[k + 1..];
    assert s[n + 2..k] == raw && s[..n] == t[..n] && s[k + 1..] == later + (">\n" + rest);
    CutThree(t, n, k);
  }

  lemma CutThree(t: string, n: nat, k: nat)
    requires n + 2 <= k < |t| && t[n] == '=' && t[n + 1] == '\'' && t[k] == '\''
    ensures t == t[..n] + "='" + t[n + 2..k] + "'" + t[k + 1..]
  {
    assert t == t[..n] + t[n..n + 2] + t[n + 2..k] + t[k..k + 1] + t[k + 1..];
  }

  lemma AttributeBounds(s: string, m: nat, rest: string) returns (n: nat, k: nat)
    requires m + 2 <= |s| && s[m..] == ">\n" + rest && Continues(rest) && ReadAttribute(s).Some?
    ensures n + 2 <= k < m && s[n] == '=' && s[n + 1] == '\'' && s[k] == '\''
    ensures ReadAttribute(s).value == ((s[..n], ReadAttribute(s).value.0.1), s[k + 1..])
    ensures ReadValue(s[n + 2..k]) == Some(ReadAttribute(s).value.0.1)
  {
    hide ReadValue;
    n := NameEnd(s);
    assert s[m] == s[m..][0] && s[m + 1] == s[m..][1] && (rest != "" ==> s[m + 2] == s[m..][2] == '<');
    assert s[n..][0] == s[n] && s[n..][1] == s[n + 1];
    assert n + 2 <= m;
    k := Find(s, '\'', n + 2);
    ReadHasNoBracket(s[n + 2..k]);
    forall i | n + 2 <= i < k
      ensures s[i] != '<'
    {
      assert s[n + 2..k][i - (n + 2)] == s[i];
    }
  }

  // ---- Texts that are read as attributes. ----

  // The text is attributes with spaces in front of each, and a reader takes it as those if and only if ok.
  ghost predicate Reads(text: string, attributes: Attributes, ok: bool)
  {
    exists ps: seq<Piece>, trail: nat :: ReadsAs(text, attributes, ok, ps, trail)
  }

  ghost predicate ReadsAs(text: string, attributes: Attributes, ok: bool, ps: seq<Piece>, trail: nat)
  {
    && text == PiecesText(ps) + Spaces(trail) && Values(ps) == attributes
    && AreHonest(ps) && (AreReadable(ps) <==> ok)
  }

  lemma ReadsSpaces(n: nat)
    ensures Reads(Spaces(n), [], true)
  {
    assert PiecesText([]) + Spaces(n) == Spaces(n);
    assert ReadsAs(Spaces(n), [], true, [], n);
  }

  lemma ReadsPiece(p: Piece)
    requires IsHonest(p)
    ensures Reads(PieceText(p), [(p.name, p.value)], IsReadable(p))
  {
    hide IsHonest, IsReadable, PieceText;
    assert [p][1..] == [];
    assert PiecesText([p]) == PieceText(p) + PiecesText([p][1..]) && PieceText(p) + "" == PieceText(p);
    assert PiecesText([p]) + Spaces(0) == PiecesText([p]);
    assert AreReadable([p]) <==> IsReadable(p) by {
      if AreReadable([p]) {
        assert IsReadable([p][0]);
      }
    }
    assert Values([p]) == [(p.name, p.value)];
    assert ReadsAs(PieceText(p), [(p.name, p.value)], IsReadable(p), [p], 0);
  }

  lemma ReadsField(name: string, value: string)
    ensures Reads(" " + (name + "='" + Escape(value) + "'"), [(name, value)], IsName(name) && FieldSafe(value))
  {
    hide Escape, FieldSafe, IsName, IsHonest, IsReadable;
    FieldIsRead(name, value);
    ReadsPiece(FieldPiece(name, value));
    assert Spaces(1) == " ";
  }

  lemma ReadsRaw(name: string, value: string)
    ensures Reads(" " + (name + "='" + value + "'"), [(name, value)], IsName(name) && RawSafe(value))
  {
    hide RawSafe, IsName, IsHonest, IsReadable;
    RawIsRead(1, name, value);
    ReadsPiece(RawPiece(1, name, value));
    assert Spaces(1) == " ";
  }

  // More spaces in front of the first attribute.
  function Widened(ps: seq<Piece>, n: nat): seq<Piece>
  {
    if ps == [] then [] else [ps[0].(gap := ps[0].gap + n)] + ps[1..]
  }

  lemma {:induction false} SpacesAppend(m: nat, n: nat)
    ensures Spaces(m) + Spaces(n) == Spaces(m + n)
  {
    if m == 0 {
      assert "" + Spaces(n) == Spaces(n);
    } else {
      SpacesAppend(m - 1, n);
      assert " " + Spaces(m - 1) + Spaces(n) == " " + (Spaces(m - 1) + Spaces(n));
    }
  }

  lemma WidenedIs(ps: seq<Piece>, n: nat)
    ensures var wide := Widened(ps, n);
      && Values(wide) == Values(ps) && (AreHonest(ps) ==> AreHonest(wide)) && (AreReadable(wide) <==> AreReadable(ps))
      && (ps != [] ==> PiecesText(wide) == Spaces(n) + PiecesText(ps))
  {
    hide IsHonest, IsReadable, PieceText, Spaces;
    if ps != [] {
      var p, later := ps[0], ps[1..];
      var wide := p.(gap := p.gap + n);
      WidePiece(p, n);
      assert Widened(ps, n)[1..] == later && ps == [p] + later;
      ReadableStep(p, later);
      ReadableStep(wide, later);
      assert Spaces(n) + (PieceText(p) + PiecesText(later)) == Spaces(n) + PieceText(p) + PiecesText(later);
      assert AreHonest(ps) ==> IsHonest(p);
    }
  }

  lemma WidePiece(p: Piece, n: nat)
    ensures var wide := p.(gap := p.gap + n);
      && PieceText(wide) == Spaces(n) + PieceText(p)
      && (IsHonest(p) ==> IsHonest(wide)) && (IsReadable(wide) <==> IsReadable(p))
  {
    hide IsName, ReadValue, Spaces;
    SpacesAppend(n, p.gap);
    var text := p.name + "='" + p.raw + "'";
    assert Spaces(n) + (Spaces(p.gap) + text) == Spaces(n) + Spaces(p.gap) + text;
  }

  lemma {:induction false} PiecesTextAppend(us: seq<Piece>, vs: seq<Piece>)
    ensures PiecesText(us + vs) == PiecesText(us) + PiecesText(vs)
  {
    hide PieceText;
    if us == [] {
      assert us + vs == vs;
    } else {
      assert (us + vs)[1..] == us[1..] + vs;
      PiecesTextAppend(us[1..], vs);
    }
  }

  lemma ReadsJoin(t: string, a: Attributes, ok: bool, t': string, a': Attributes, ok': bool)
    requires Reads(t, a, ok) && Reads(t', a', ok')
    ensures Reads(t + t', a + a', ok && ok')
  {
    hide ReadsAs;
    var ps, trail :| ReadsAs(t, a, ok, ps, trail);
    var ps', trail' :| ReadsAs(t', a', ok', ps', trail');
    JoinPieces(t, a, ok, ps, trail, t', a', ok', ps', trail');
  }

  lemma JoinPieces(t: string, a: Attributes, ok: bool, ps: seq<Piece>, trail: nat,
                   t': string, a': Attributes, ok': bool, ps': seq<Piece>, trail': nat)
    requires ReadsAs(t, a, ok, ps, trail) && ReadsAs(t', a', ok', ps', trail')
    ensures Reads(t + t', a + a', ok && ok')
  {
    hide IsHonest, IsReadable, PieceText, Widened;
    var wide := Widened(ps', trail);
    WidenedIs(ps', trail);
    PiecesTextAppend(ps, wide);
    ReadableAppend(ps, wide);
    assert Values(ps + wide) == Values(ps) + Values(wide);
    hide PiecesText, AreHonest, AreReadable, Values;
    if ps' == [] {
      NotWidened(trail);
      SpacesAppend(trail, trail');
      Middle(PiecesText(ps), Spaces(trail), "", Spaces(trail'));
      assert ReadsAs(t + t', a + a', ok && ok', ps + wide, trail + trail');
    } else {
      Middle(PiecesText(ps), Spaces(trail), PiecesText(ps'), Spaces(trail'));
      assert ReadsAs(t + t', a + a', ok && ok', ps + wide, trail');
    }
  }

  lemma Middle(s: string, t: string, u: string, v: string)
    ensures (s + t) + (u + v) == s + (t + u) + v
    ensures u == "" ==> (s + t) + (u + v) == s + u + (t + v)
  {
  }

  lemma NotWidened(n: nat)
    ensures Widened([], n) == [] && PiecesText([]) == ""
  {
  }

  lemma ReadableAppend(us: seq<Piece>, vs: seq<Piece>)
    ensures AreReadable(us + vs) <==> AreReadable(us) && AreReadable(vs)
    ensures AreHonest(us) && AreHonest(vs) ==> AreHonest(us + vs)
  {
    hide IsReadable, IsHonest;
    if AreReadable(us + vs) {
      assert forall i :: 0 <= i < |us| ==> us[i] == (us + vs)[i];
      forall i | 0 <= i < |vs|
        ensures IsReadable(vs[i])
      {
        assert vs[i] == (us + vs)[|us| + i];
      }
    }
  }

  lemma ReadsElement(tag: Tag, attributes: Attributes, ok: bool)
    requires !tag.CloseTag? && IsName(tag.name) && Reads(" " + tag.text, attributes, ok)
    ensures Tells([tag], [Meant(tag, attributes)], ok && IsDistinct(attributes))
  {
    var ps, trail :| ReadsAs(" " + tag.text, attributes, ok, ps, trail);
    hide Tells, IsDistinct, AreHonest, AreReadable;
    ElementTells(tag, ps, trail);
  }

  // Attributes that are escaped as a whole text.
  lemma ReadsListed(attributes: Attributes)
    requires HasNames(attributes)
    ensures Reads(Escape(AttributesText(attributes)), attributes,
                  forall i :: 0 <= i < |attributes| ==> ListedSafe(attributes[i].1))
  {
    hide ListedSafe, IsName, IsHonest, IsReadable, EscapeFrom, ListedPiece;
    EscapedText(None, attributes);
    var ps := ListedPieces(attributes);
    forall i | 0 <= i < |attributes|
      ensures IsHonest(ps[i]) && (IsReadable(ps[i]) <==> ListedSafe(attributes[i].1))
    {
      ListedIsRead(attributes[i]);
    }
    ListedValues(attributes);
    assert PiecesText(ps) + Spaces(0) == PiecesText(ps);
    ListedReadable(attributes);
    assert ReadsAs(Escape(AttributesText(attributes)), attributes,
                   forall i :: 0 <= i < |attributes| ==> ListedSafe(attributes[i].1), ps, 0);
  }

  lemma ListedReadable(attributes: Attributes)
    requires forall i :: 0 <= i < |attributes| ==>
      (IsReadable(ListedPieces(attributes)[i]) <==> ListedSafe(attributes[i].1))
    ensures AreReadable(ListedPieces(attributes)) <==>
      forall i :: 0 <= i < |attributes| ==> ListedSafe(attributes[i].1)
  {
    hide ListedSafe, IsReadable, ListedPiece;
    var ps := ListedPieces(attributes);
    if AreReadable(ps) {
      forall i | 0 <= i < |attributes|
        ensures ListedSafe(attributes[i].1)
      {
        assert IsReadable(ps[i]);
      }
    }
  }

  lemma ListedValues(attributes: Attributes)
    ensures Values(ListedPieces(attributes)) == attributes
  {
    hide EscapeBefore;
  }
}
