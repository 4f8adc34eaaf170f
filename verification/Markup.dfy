// A reader of the markup the lexical transfer prints: start tags, end tags and empty elements with
// attributes name='value'. A value ends at the next apostrophe; it may hold '>' but not '<', and every '&'
// in it starts a predefined entity. Between attributes stand spaces, and no name is used twice in a tag.
module Markup {
  import opened Options
  import opened Strings
  import opened TransferGrammar
  import opened Escaping

  datatype Markup =
    | StartTag(name: string, attributes: Attributes)
    | EndTag(name: string)
    | EmptyElement(name: string, attributes: Attributes)

  // ---- Values. ----

  function Prepend(c: char, value: Option<string>): Option<string>
  {
    if value.None? then None else Some([c] + value.value)
  }

  function ReadValue(s: string): Option<string>
  {
    if s == "" then Some("")
    else if AMP <= s then Prepend('&', ReadValue(s[|AMP|..]))
    else if QUOT <= s then Prepend('"', ReadValue(s[|QUOT|..]))
    else if APOS <= s then Prepend('\'', ReadValue(s[|APOS|..]))
    else if LT <= s then Prepend('<', ReadValue(s[|LT|..]))
    else if GT <= s then Prepend('>', ReadValue(s[|GT|..]))
    else if s[0] == '&' || s[0] == '<' then None
    else Prepend(s[0], ReadValue(s[1..]))
  }

  // The first character that is read, and what is behind it; None when a value cannot begin like this.
  function ReadChar(s: string): Option<(char, string)>
    requires s != ""
    ensures ReadChar(s).Some? ==> |ReadChar(s).value.1| < |s|
  {
    if AMP <= s then Some(('&', s[|AMP|..]))
    else if QUOT <= s then Some(('"', s[|QUOT|..]))
    else if APOS <= s then Some(('\'', s[|APOS|..]))
    else if LT <= s then Some(('<', s[|LT|..]))
    else if GT <= s then Some(('>', s[|GT|..]))
    else if s[0] == '&' || s[0] == '<' then None
    else Some((s[0], s[1..]))
  }

  lemma ReadStep(s: string)
    requires s != ""
    ensures ReadChar(s).None? ==> ReadValue(s) == None
    ensures ReadChar(s).Some? ==> ReadValue(s) == Prepend(ReadChar(s).value.0, ReadValue(ReadChar(s).value.1))
  {
  }

  // What is behind a string does not change how it begins.
  lemma ReadCharBefore(s: string, t: string)
    requires s != "" && ReadChar(s).Some?
    ensures ReadChar(s + t) == Some((ReadChar(s).value.0, ReadChar(s).value.1 + t))
    ensures Decode(s + t) == [ReadChar(s).value.0] + Decode(ReadChar(s).value.1 + t)
  {
    assert s <= s + t && (s + t)[0] == s[0] && (s + t)[1..] == s[1..] + t;
    if s[0] == '&' {
      EntityBefore(s, t);
    } else {
      NoEntity(s);
      NoEntity(s + t);
    }
  }

  lemma NoEntity(s: string)
    requires s != "" && s[0] != '&'
    ensures !StartsEntity(s)
  {
  }

  lemma EntityBefore(s: string, t: string)
    requires s != "" && s[0] == '&' && ReadChar(s).Some?
    ensures ReadChar(s + t) == Some((ReadChar(s).value.0, ReadChar(s).value.1 + t))
    ensures Decode(s + t) == [ReadChar(s).value.0] + Decode(ReadChar(s).value.1 + t)
  {
    hide Decode, ReadChar;
    var entity := WhichEntity(s);
    assert s == entity + s[|entity|..];
    assert s + t == entity + (s[|entity|..] + t);
    OneEntity(entity, s[|entity|..]);
    OneEntity(entity, s[|entity|..] + t);
  }

  lemma WhichEntity(s: string) returns (entity: string)
    requires s != "" && s[0] == '&' && ReadChar(s).Some?
    ensures entity in {AMP, QUOT, APOS, LT, GT} && entity <= s
  {
    entity := if AMP <= s then AMP else if QUOT <= s then QUOT else if APOS <= s then APOS
      else if LT <= s then LT else GT;
  }

  lemma OneEntity(entity: string, rest: string)
    requires entity in {AMP, QUOT, APOS, LT, GT}
    ensures entity + rest != "" && ReadChar(entity + rest).Some? && ReadChar(entity + rest).value.1 == rest
    ensures ReadChar(entity + rest).value.0
      == (if entity == AMP then '&' else if entity == QUOT then '"' else if entity == APOS then '\''
          else if entity == LT then '<' else '>')
    ensures Decode(entity + rest) == [ReadChar(entity + rest).value.0] + Decode(rest)
  {
    var s := entity + rest;
    assert entity <= s && s[|entity|..] == rest;
    assert s[0] == entity[0] && s[1] == entity[1] && s[2] == entity[2];
  }

  // A value that is read is what decoding gives.
  lemma {:induction false} ReadValueDecodes(s: string, t: string)
    ensures ReadValue(s).Some? ==> Decode(s + t) == ReadValue(s).value + Decode(t)
    ensures ReadValue(s).Some? ==> |ReadValue(s).value| <= |s|
    decreases |s|
  {
    hide Decode, ReadChar, ReadValue;
    if s == "" {
      NothingRead();
      assert s + t == t && "" + Decode(t) == Decode(t);
    } else {
      ReadStep(s);
      if ReadChar(s).Some? {
        var (c, left) := ReadChar(s).value;
        ReadCharBefore(s, t);
        ReadValueDecodes(left, t);
        assert ReadValue(left).Some? ==>
          [c] + (ReadValue(left).value + Decode(t)) == [c] + ReadValue(left).value + Decode(t);
      }
    }
  }

  lemma NothingRead()
    ensures ReadValue("") == Some("") && Decode("") == ""
  {
  }

  // Text is read as it is exactly when it has no '<' and no '&'.
  lemma {:induction false} ReadRawIff(s: string)
    ensures ReadValue(s) == Some(s) <==> '<' !in s && '&' !in s
  {
    if s == "" {
    } else if s[0] == '<' || s[0] == '&' {
      ReadValueDecodes(s, "");
      ReadShorter(s);
    } else {
      NoEntity(s);
      ReadRawIff(s[1..]);
      assert s == [s[0]] + s[1..];
      hide ReadValue;
      ReadStepPlain(s);
      if ReadValue(s) == Some(s) {
        assert ([s[0]] + ReadValue(s[1..]).value)[1..] == s[1..];
      }
    }
  }

  lemma ReadStepPlain(s: string)
    requires s != "" && s[0] != '&' && s[0] != '<'
    ensures ReadValue(s) == Prepend(s[0], ReadValue(s[1..]))
  {
    NoEntity(s);
  }

  lemma ReadShorter(s: string)
    requires s != "" && (s[0] == '<' || s[0] == '&')
    ensures ReadValue(s).Some? ==> |ReadValue(s).value| < |s|
  {
    if ReadChar(s).Some? {
      ReadStep(s);
      ReadValueDecodes(ReadChar(s).value.1, "");
    } else {
      ReadStep(s);
    }
  }

  // ---- Tags. ----

  predicate IsNameChar(c: char)
  {
    && c != ' ' && c != '\t' && c != '\n' && c != '\r' && c != '=' && c != '\'' && c != '"'
    && c != '<' && c != '>' && c != '&' && c != '/'
  }

  predicate IsName(name: string)
  {
    name != "" && forall i :: 0 <= i < |name| ==> IsNameChar(name[i])
  }

  function NameEnd(s: string): (n: nat)
    ensures n <= |s| && (forall i :: 0 <= i < n ==> IsNameChar(s[i])) && (n < |s| ==> !IsNameChar(s[n]))
  {
    if s == "" || !IsNameChar(s[0]) then 0 else 1 + NameEnd(s[1..])
  }

  lemma {:induction false} NameEndIs(name: string, rest: string)
    requires forall i :: 0 <= i < |name| ==> IsNameChar(name[i])
    requires rest == "" || !IsNameChar(rest[0])
    ensures NameEnd(name + rest) == |name|
  {
    if name == "" {
      assert name + rest == rest;
    } else {
      assert (name + rest)[1..] == name[1..] + rest;
      NameEndIs(name[1..], rest);
    }
  }

  function SkipSpaces(s: string): (r: string)
    ensures |r| <= |s| && (r != "" ==> r[0] != ' ')
  {
    if s != "" && s[0] == ' ' then SkipSpaces(s[1..]) else s
  }

  // The attributes of a tag, whether it ends in "/>", and what is behind it.
  datatype Rest = Rest(attributes: Attributes, isEmpty: bool, left: string)

  function ReadRest(s: string): (r: Option<Rest>)
    ensures r.Some? ==> |r.value.left| < |s|
    decreases |s|
  {
    var t := SkipSpaces(s);
    if t == "" then None
    else if t[0] == '>' then Some(Rest([], false, t[1..]))
    else if t[0] == '/' then if |t| > 1 && t[1] == '>' then Some(Rest([], true, t[2..])) else None
    else if |t| == |s| then None
    else
      var first := ReadAttribute(t);
      if first.None? then None else Cons(first.value.0, ReadRest(first.value.1))
  }

  // An attribute, and what is behind it.
  function ReadAttribute(t: string): (r: Option<((string, string), string)>)
    ensures r.Some? ==> |r.value.1| < |t| && IsName(r.value.0.0)
  {
    var n := NameEnd(t);
    if n == 0 || !("='" <= t[n..]) then None
    else
      var k := Find(t, '\'', n + 2);
      if k == |t| then None
      else
        var value := ReadValue(t[n + 2..k]);
        if value.None? then None else Some(((t[..n], value.value), t[k + 1..]))
  }

  function Cons(attribute: (string, string), rest: Option<Rest>): Option<Rest>
  {
    if rest.None? then None else Some(rest.value.(attributes := [attribute] + rest.value.attributes))
  }

  function ReadTag(s: string): (r: Option<(Markup, string)>)
    ensures r.Some? ==> |r.value.1| < |s|
  {
    if |s| < 2 || s[0] != '<' then None
    else if s[1] == '/' then
      var n := NameEnd(s[2..]);
      if n == 0 || 2 + n == |s| || s[2 + n] != '>' then None else Some((EndTag(s[2..2 + n]), s[3 + n..]))
    else
      var n := NameEnd(s[1..]);
      var rest := ReadRest(s[1 + n..]);
      if n == 0 || rest.None? || !IsDistinct(rest.value.attributes) then None
      else
        var name, attributes := s[1..1 + n], rest.value.attributes;
        var tag := if rest.value.isEmpty then EmptyElement(name, attributes) else StartTag(name, attributes);
        Some((tag, rest.value.left))
  }

  function SkipBlanks(s: string): (r: string)
    ensures |r| <= |s|
  {
    if s != "" && s[0] in " \t\n\r" then SkipBlanks(s[1..]) else s
  }

  // Tags with nothing but white space between them.
  function ReadMarkup(s: string): Option<seq<Markup>>
    decreases |s|
  {
    var t := SkipBlanks(s);
    if t == "" then Some([])
    else
      var tag := ReadTag(t);
      if tag.None? then None else Follow([tag.value.0], ReadMarkup(tag.value.1))
  }

  function Follow(first: seq<Markup>, later: Option<seq<Markup>>): Option<seq<Markup>>
  {
    if later.None? then None else Some(first + later.value)
  }

  // ---- Attributes as they are printed. ----

  // What is printed of an attribute, and the value it stands for; gap is the number of spaces before it.
  datatype Piece = Piece(gap: nat, name: string, raw: string, value: string)

  function Spaces(n: nat): string
  {
    if n == 0 then "" else " " + Spaces(n - 1)
  }

  function PieceText(p: Piece): string
  {
    Spaces(p.gap) + (p.name + "='" + p.raw + "'")
  }

  function PiecesText(ps: seq<Piece>): string
  {
    if ps == [] then "" else PieceText(ps[0]) + PiecesText(ps[1..])
  }

  function Values(ps: seq<Piece>): Attributes
  {
    seq(|ps|, i requires 0 <= i < |ps| => (ps[i].name, ps[i].value))
  }

  // There is a space in front, and the value is not that of the text up to some apostrophe inside.
  ghost predicate IsHonest(p: Piece)
  {
    p.gap > 0 && forall k :: 0 <= k < |p.raw| && p.raw[k] == '\'' ==> ReadValue(p.raw[..k]) != Some(p.value)
  }

  ghost predicate IsReadable(p: Piece)
  {
    IsName(p.name) && '\'' !in p.raw && ReadValue(p.raw) == Some(p.value)
  }

  lemma {:induction false} SpacesSkipped(n: nat, s: string)
    ensures SkipSpaces(Spaces(n) + s) == SkipSpaces(s)
    ensures |Spaces(n)| == n
  {
    hide SkipSpaces;
    if n == 0 {
      assert Spaces(n) + s == s;
    } else {
      SpacesSkipped(n - 1, s);
      OneSpaceSkipped(Spaces(n - 1) + s);
      assert Spaces(n) + s == " " + (Spaces(n - 1) + s);
    }
  }

  lemma OneSpaceSkipped(s: string)
    ensures SkipSpaces(" " + s) == SkipSpaces(s)
  {
    assert (" " + s)[1..] == s;
  }

  lemma RestStep(s: string)
    ensures var t := SkipSpaces(s);
      t != "" && |t| < |s| && IsNameChar(t[0]) ==>
        ReadRest(s)
        == var first := ReadAttribute(t); if first.None? then None else Cons(first.value.0, ReadRest(first.value.1))
    ensures ReadRest(s).Some? && ReadRest(s).value.attributes != [] ==> IsName(ReadRest(s).value.attributes[0].0)
  {
    hide ReadAttribute, SkipSpaces, IsName;
  }

  // The value is read up to the next apostrophe.
  lemma QuotedIsRead(name: string, quoted: string, left: string)
    requires IsName(name) && '\'' !in quoted
    ensures ReadAttribute(name + "='" + quoted + "'" + left)
      == var value := ReadValue(quoted); if value.None? then None else Some(((name, value.value), left))
  {
    hide ReadValue, Find;
    var n, m := |name|, |quoted|;
    var t := name + "='" + quoted + "'" + left;
    QuotedParts(name, quoted, left);
    NameEndIs(name, t[n..]);
    FindIs(t, '\'', n + 2, n + 2 + m);
  }

  lemma QuotedParts(name: string, quoted: string, left: string)
    requires '\'' !in quoted
    ensures var n, m := |name|, |quoted|;
      var t := name + "='" + quoted + "'" + left;
      && t == name + t[n..] && t[..n] == name && "='" <= t[n..] && t[n] == '='
      && n + 2 + m < |t| && t[n + 2 + m] == '\'' && t[n + 2..n + 2 + m] == quoted && t[n + 2 + m + 1..] == left
      && forall i :: n + 2 <= i < n + 2 + m ==> t[i] != '\''
  {
    var n, m := |name|, |quoted|;
    var t := name + "='" + quoted + "'" + left;
    assert t[n..] == "='" + (quoted + "'" + left);
    assert forall i :: 0 <= i < m ==> t[n + 2 + i] == quoted[i];
  }

  // The reader takes an attribute as it was meant if and only if it is readable, whatever follows.
  lemma PieceIsRead(p: Piece, more: string)
    requires IsHonest(p)
    ensures var r := ReadRest(PieceText(p) + more);
      if IsReadable(p) then r == Cons((p.name, p.value), ReadRest(more))
      else r.Some? && r.value.attributes != [] ==> r.value.attributes[0] != (p.name, p.value)
  {
    hide ReadRest, ReadAttribute, ReadValue, SkipSpaces, Find, IsName;
    var t := p.name + "='" + p.raw + "'" + more;
    var s := PieceText(p) + more;
    RestStep(s);
    if IsName(p.name) {
      assert s == Spaces(p.gap) + t;
      SpacesSkipped(p.gap, t);
      NameStarts(p.name, p.raw + "'" + more);
      assert t == p.name + "='" + (p.raw + "'" + more);
      var q := Find(p.raw, '\'', 0);
      assert p.raw[0..q] == p.raw[..q];
      if q == |p.raw| {
        assert p.raw[..q] == p.raw;
        QuotedIsRead(p.name, p.raw, more);
      } else {
        CutAt(p.name, p.raw, more, q);
        QuotedIsRead(p.name, p.raw[..q], p.raw[q + 1..] + "'" + more);
      }
    }
  }

  lemma CutAt(name: string, raw: string, more: string, q: nat)
    requires q < |raw| && raw[q] == '\''
    ensures name + "='" + raw + "'" + more == name + "='" + raw[..q] + "'" + (raw[q + 1..] + "'" + more)
  {
    assert raw == raw[..q] + "'" + raw[q + 1..];
    var before, behind := name + "='", raw[q + 1..];
    assert before + (raw[..q] + "'" + behind) + "'" + more == before + raw[..q] + "'" + (behind + "'" + more);
  }

  lemma NameStarts(name: string, more: string)
    requires IsName(name)
    ensures var t := name + "='" + more;
      IsNameChar(t[0]) && SkipSpaces(t) == t
  {
    assert (name + "='" + more)[0] == name[0];
  }

  ghost predicate AreHonest(ps: seq<Piece>)
  {
    forall i :: 0 <= i < |ps| ==> IsHonest(ps[i])
  }

  ghost predicate AreReadable(ps: seq<Piece>)
  {
    forall i :: 0 <= i < |ps| ==> IsReadable(ps[i])
  }

  function ConsAll(attributes: Attributes, rest: Option<Rest>): Option<Rest>
  {
    if rest.None? then None else Some(rest.value.(attributes := attributes + rest.value.attributes))
  }

  ghost predicate BeginsWith(attributes: Attributes, rest: Option<Rest>)
  {
    rest.Some? && attributes <= rest.value.attributes
  }

  lemma {:induction false} PiecesAreRead(ps: seq<Piece>, more: string)
    requires AreHonest(ps)
    ensures var r := ReadRest(PiecesText(ps) + more);
      if AreReadable(ps) then r == ConsAll(Values(ps), ReadRest(more)) else !BeginsWith(Values(ps), r)
  {
    hide IsHonest, IsReadable, ReadRest, PieceText;
    if ps == [] {
      assert PiecesText(ps) + more == more;
      assert ReadRest(more).Some? ==> Values(ps) + ReadRest(more).value.attributes == ReadRest(more).value.attributes;
    } else {
      var p, later := ps[0], ps[1..];
      PieceIsRead(p, PiecesText(later) + more);
      PiecesAreRead(later, more);
      assert PiecesText(ps) + more == PieceText(p) + (PiecesText(later) + more);
      assert Values(ps) == [(p.name, p.value)] + Values(later);
      assert ps == [p] + later;
      ReadableStep(p, later);
      ConsStep((p.name, p.value), Values(later), ReadRest(PiecesText(later) + more));
      ConsAllStep((p.name, p.value), Values(later), ReadRest(more));
    }
  }

  lemma ReadableStep(p: Piece, later: seq<Piece>)
    ensures AreReadable([p] + later) <==> IsReadable(p) && AreReadable(later)
  {
    hide IsReadable;
    if AreReadable([p] + later) {
      assert IsReadable(([p] + later)[0]);
      assert forall i :: 0 <= i < |later| ==> later[i] == ([p] + later)[i + 1];
    }
  }

  lemma ConsStep(attribute: (string, string), later: Attributes, rest: Option<Rest>)
    ensures BeginsWith([attribute] + later, Cons(attribute, rest)) <==> BeginsWith(later, rest)
    ensures forall r: Option<Rest> :: BeginsWith([attribute] + later, r) ==>
      r.value.attributes != [] && r.value.attributes[0] == attribute
  {
    if rest.Some? {
      var all := [attribute] + rest.value.attributes;
      assert all[1..] == rest.value.attributes && ([attribute] + later)[1..] == later;
      if later <= rest.value.attributes {
        assert all == [attribute] + later + rest.value.attributes[|later|..];
      }
    }
  }

  lemma ConsAllStep(attribute: (string, string), later: Attributes, rest: Option<Rest>)
    ensures Cons(attribute, ConsAll(later, rest)) == ConsAll([attribute] + later, rest)
  {
    if rest.Some? {
      assert [attribute] + (later + rest.value.attributes) == [attribute] + later + rest.value.attributes;
    }
  }

  // ---- A printed tag, and a printed sequence of tags. ----

  predicate Continues(rest: string)
  {
    rest == "" || rest[0] == '<'
  }

  function PrintAll(tags: seq<Tag>): string
  {
    if tags == [] then "" else Print(tags[0]) + PrintAll(tags[1..])
  }

  ghost predicate Begins(first: seq<Markup>, all: Option<seq<Markup>>)
  {
    all.Some? && first <= all.value
  }

  // The same kind of tag, with the same name.
  predicate Matches(tag: Tag, markup: Markup)
  {
    match tag
    case OpenTag(name, _) => markup.StartTag? && markup.name == name
    case CloseTag(name) => markup == EndTag(name)
    case EmptyTag(name, _, _) => markup.EmptyElement? && markup.name == name
  }

  // The printed tags are read as they were meant if and only if ok, whatever tags follow.
  ghost predicate Tells(tags: seq<Tag>, markup: seq<Markup>, ok: bool)
  {
    && |tags| == |markup| && (forall i :: 0 <= i < |tags| ==> Matches(tags[i], markup[i]))
    && forall rest :: Continues(rest) ==> TellsBefore(tags, markup, ok, rest)
  }

  ghost predicate TellsBefore(tags: seq<Tag>, markup: seq<Markup>, ok: bool, rest: string)
  {
    var read := ReadMarkup(PrintAll(tags) + rest);
    if ok then read == Follow(markup, ReadMarkup(rest)) else !Begins(markup, read)
  }

  lemma TellsJoin(us: seq<Tag>, ms: seq<Markup>, ok: bool, vs: seq<Tag>, ns: seq<Markup>, ok': bool)
    requires Tells(us, ms, ok) && Tells(vs, ns, ok')
    ensures Tells(us + vs, ms + ns, ok && ok')
  {
    hide TellsBefore, PrintAll, Matches;
    forall rest | Continues(rest)
      ensures TellsBefore(us + vs, ms + ns, ok && ok', rest)
    {
      PrintContinues(vs, rest);
      assert TellsBefore(us, ms, ok, PrintAll(vs) + rest) && TellsBefore(vs, ns, ok', rest);
      JoinBefore(us, ms, ok, vs, ns, ok', rest);
    }
  }

  lemma JoinBefore(us: seq<Tag>, ms: seq<Markup>, ok: bool, vs: seq<Tag>, ns: seq<Markup>, ok': bool, rest: string)
    requires TellsBefore(us, ms, ok, PrintAll(vs) + rest) && TellsBefore(vs, ns, ok', rest)
    ensures TellsBefore(us + vs, ms + ns, ok && ok', rest)
  {
    hide ReadMarkup, PrintAll, Follow, Begins;
    PrintAllAppend(us, vs);
    var later := PrintAll(vs) + rest;
    assert PrintAll(us) + PrintAll(vs) + rest == PrintAll(us) + later;
    FollowStep(ms, ns, ReadMarkup(rest));
    BeginsStep(ms, ns, ReadMarkup(later));
    BeginsFirst(ms, ns, ReadMarkup(PrintAll(us) + later));
  }

  lemma FollowStep(ms: seq<Markup>, ns: seq<Markup>, later: Option<seq<Markup>>)
    ensures Follow(ms, Follow(ns, later)) == Follow(ms + ns, later)
  {
    if later.Some? {
      assert ms + (ns + later.value) == ms + ns + later.value;
    }
  }

  lemma BeginsStep(ms: seq<Markup>, ns: seq<Markup>, later: Option<seq<Markup>>)
    ensures Begins(ms + ns, Follow(ms, later)) ==> Begins(ns, later)
  {
    if Begins(ms + ns, Follow(ms, later)) {
      var all := ms + later.value;
      assert all[|ms|..] == later.value && (ms + ns)[|ms|..] == ns;
      assert ms + ns == all[..|ms + ns|];
      assert ns == later.value[..|ns|];
    }
  }

  lemma BeginsFirst(ms: seq<Markup>, ns: seq<Markup>, all: Option<seq<Markup>>)
    ensures Begins(ms + ns, all) ==> Begins(ms, all)
  {
  }

  lemma {:induction false} PrintAllAppend(us: seq<Tag>, vs: seq<Tag>)
    ensures PrintAll(us + vs) == PrintAll(us) + PrintAll(vs)
  {
    hide Print;
    if us == [] {
      assert us + vs == vs;
    } else {
      assert (us + vs)[1..] == us[1..] + vs;
      PrintAllAppend(us[1..], vs);
    }
  }

  lemma PrintContinues(tags: seq<Tag>, rest: string)
    requires Continues(rest)
    ensures Continues(PrintAll(tags) + rest)
  {
    if tags == [] {
      assert PrintAll(tags) + rest == rest;
    } else {
      assert Print(tags[0])[0] == '<';
    }
  }

  lemma NothingTells()
    ensures Tells([], [], true)
  {
    hide ReadMarkup;
    forall rest | Continues(rest)
      ensures TellsBefore([], [], true, rest)
    {
      assert PrintAll([]) + rest == rest;
      var read := ReadMarkup(rest);
      assert read.Some? ==> [] + read.value == read.value;
    }
  }

  // One tag: what is left to know is how the reader takes it.
  lemma OneTells(tag: Tag, markup: Markup, ok: bool)
    requires Matches(tag, markup)
    requires forall rest :: Continues(rest) ==> TagReads(tag, markup, ok, rest)
    ensures Tells([tag], [markup], ok)
  {
    hide TellsBefore, TagReads, Matches;
    forall rest | Continues(rest)
      ensures TellsBefore([tag], [markup], ok, rest)
    {
      OneBefore(tag, markup, ok, rest);
    }
  }

  lemma OneBefore(tag: Tag, markup: Markup, ok: bool, rest: string)
    requires Continues(rest) && TagReads(tag, markup, ok, rest)
    ensures TellsBefore([tag], [markup], ok, rest)
  {
    hide Print, ReadTag, ReadMarkup;
    var s := Print(tag) + rest;
    assert [tag][1..] == [] && PrintAll([]) == "";
    assert PrintAll([tag]) == Print(tag) + "";
    assert PrintAll([tag]) + rest == s;
    PrintStarts(tag, rest);
    MarkupStep(s);
    MarkupSkips(rest);
    if !ok && ReadTag(s).Some? {
      OtherFirst(markup, ReadTag(s).value.0, ReadMarkup(ReadTag(s).value.1));
    }
  }

  lemma OtherFirst(markup: Markup, other: Markup, later: Option<seq<Markup>>)
    requires other != markup
    ensures !Begins([markup], Follow([other], later))
  {
    if later.Some? {
      assert ([other] + later.value)[0] == other;
    }
  }

  ghost predicate TagReads(tag: Tag, markup: Markup, ok: bool, rest: string)
  {
    var r := ReadTag(Print(tag) + rest);
    if ok then r == Some((markup, "\n" + rest)) else r.Some? ==> r.value.0 != markup
  }

  lemma PrintStarts(tag: Tag, rest: string)
    ensures Print(tag) + rest != "" && (Print(tag) + rest)[0] == '<'
  {
  }

  lemma MarkupStep(s: string)
    requires s != "" && s[0] == '<'
    ensures ReadMarkup(s)
      == var tag := ReadTag(s); if tag.None? then None else Follow([tag.value.0], ReadMarkup(tag.value.1))
  {
    hide ReadTag;
  }

  lemma MarkupSkips(rest: string)
    requires Continues(rest)
    ensures ReadMarkup("\n" + rest) == ReadMarkup(rest)
  {
    hide ReadTag;
    assert ("\n" + rest)[1..] == rest;
  }

  // ---- Elements and end tags. ----

  lemma EndTagTells(name: string)
    requires IsName(name)
    ensures Tells([CloseTag(name)], [EndTag(name)], true)
  {
    forall rest | Continues(rest)
      ensures TagReads(CloseTag(name), EndTag(name), true, rest)
    {
      EndTagReads(name, rest);
    }
    OneTells(CloseTag(name), EndTag(name), true);
  }

  lemma EndTagReads(name: string, rest: string)
    requires IsName(name)
    ensures ReadTag(Print(CloseTag(name)) + rest) == Some((EndTag(name), "\n" + rest))
  {
    hide NameEnd;
    var left := "\n" + rest;
    var s := "</" + (name + (">" + left));
    assert Print(CloseTag(name)) + rest == s;
    assert s[2..] == name + (">" + left);
    NameEndIs(name, ">" + left);
    assert s[2..2 + |name|] == name && s[2 + |name|] == '>' && s[3 + |name|..] == left;
  }

  function Meant(tag: Tag, attributes: Attributes): Markup
  {
    match tag
    case OpenTag(name, _) => StartTag(name, attributes)
    case CloseTag(name) => EndTag(name)
    case EmptyTag(name, _, _) => EmptyElement(name, attributes)
  }

  // An element whose text is a sequence of attributes is read as it was meant if and only if each is
  // readable and no name comes twice.
  lemma ElementTells(tag: Tag, ps: seq<Piece>, trail: nat)
    requires !tag.CloseTag? && IsName(tag.name) && AreHonest(ps)
    requires " " + tag.text == PiecesText(ps) + Spaces(trail)
    ensures Tells([tag], [Meant(tag, Values(ps))], AreReadable(ps) && IsDistinct(Values(ps)))
  {
    var ok := AreReadable(ps) && IsDistinct(Values(ps));
    forall rest | Continues(rest)
      ensures TagReads(tag, Meant(tag, Values(ps)), ok, rest)
    {
      ElementReads(tag, ps, trail, rest);
    }
    OneTells(tag, Meant(tag, Values(ps)), ok);
  }

  function End(tag: Tag): string
  {
    if tag.EmptyTag? then "/>\n" else ">\n"
  }

  lemma ElementReads(tag: Tag, ps: seq<Piece>, trail: nat, rest: string)
    requires !tag.CloseTag? && IsName(tag.name) && AreHonest(ps)
    requires " " + tag.text == PiecesText(ps) + Spaces(trail)
    ensures TagReads(tag, Meant(tag, Values(ps)), AreReadable(ps) && IsDistinct(Values(ps)), rest)
  {
    hide ReadRest, AreReadable, AreHonest, IsDistinct, PiecesText, Spaces;
    var end := End(tag) + rest;
    var more := Spaces(trail) + end;
    TagStep(tag, PiecesText(ps) + more, rest);
    assert " " + tag.text + end == PiecesText(ps) + more;
    PiecesAreRead(ps, more);
    EndIsRead(tag, trail, rest);
    assert Values(ps) + [] == Values(ps);
  }

  lemma EndIsRead(tag: Tag, trail: nat, rest: string)
    ensures ReadRest(Spaces(trail) + (End(tag) + rest)) == Some(Rest([], tag.EmptyTag?, "\n" + rest))
  {
    var end := End(tag) + rest;
    SpacesSkipped(trail, end);
    assert end[0] == (if tag.EmptyTag? then '/' else '>');
    assert tag.EmptyTag? ==> end[1] == '>' && end[2..] == "\n" + rest;
    assert !tag.EmptyTag? ==> end[1..] == "\n" + rest;
  }

  // The name is read, and then the rest.
  lemma TagStep(tag: Tag, text: string, rest: string)
    requires !tag.CloseTag? && IsName(tag.name)
    requires " " + tag.text + (End(tag) + rest) == text
    ensures ReadTag(Print(tag) + rest)
      == var r := ReadRest(text);
         if r.None? || !IsDistinct(r.value.attributes) then None
         else Some((if r.value.isEmpty then EmptyElement(tag.name, r.value.attributes)
                    else StartTag(tag.name, r.value.attributes), r.value.left))
  {
    hide ReadRest, IsDistinct, ReadTag;
    assert Print(tag) + rest == "<" + (tag.name + text);
    StartIsRead(tag.name, text);
  }

  lemma StartIsRead(name: string, text: string)
    requires IsName(name) && text != "" && text[0] == ' '
    ensures ReadTag("<" + (name + text))
      == var r := ReadRest(text);
         if r.None? || !IsDistinct(r.value.attributes) then None
         else Some((if r.value.isEmpty then EmptyElement(name, r.value.attributes)
                    else StartTag(name, r.value.attributes), r.value.left))
  {
    hide ReadTag, ReadRest, IsDistinct, NameEnd;
    var s := "<" + (name + text);
    StartParts(name, text);
    NameEndIs(name, text);
    ReadStart(s);
  }

  lemma StartParts(name: string, text: string)
    requires IsName(name)
    ensures var s, n := "<" + (name + text), |name|;
      s[1..] == name + text && s[1] == name[0] != '/' && s[1 + n..] == text && s[1..1 + n] == name
  {
  }

  lemma ReadStart(s: string)
    requires |s| > 1 && s[0] == '<' && s[1] != '/' && NameEnd(s[1..]) > 0
    ensures ReadTag(s)
      == var n := NameEnd(s[1..]);
         var r := ReadRest(s[1 + n..]);
         if r.None? || !IsDistinct(r.value.attributes) then None
         else Some((if r.value.isEmpty then EmptyElement(s[1..1 + n], r.value.attributes)
                    else StartTag(s[1..1 + n], r.value.attributes), r.value.left))
  {
    hide ReadRest, IsDistinct;
  }
}
