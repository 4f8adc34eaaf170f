// What the start of a NODE, CHUNK or SENTENCE is printed as, from the attributes of the element and the
// answers of the dictionary (squoia_xfer_lex.cc).
module HeadTexts {
  import opened Options
  import opened Strings
  import opened TransferGrammar

  // ---- Attributes. ----

  // The element has this value for the name; the empty one when it has no such attribute.
  ghost predicate Carries(attributes: Attributes, name: string, value: string)
  {
    (name, value) in attributes || (value == "" && forall x :: x in attributes ==> x.0 != name)
  }

  // An attribute is found wherever it stands; of several with the name it is the first.
  lemma {:induction false} AttributeAt(attributes: Attributes, name: string, i: nat)
    requires i <= |attributes| && forall j :: 0 <= j < i ==> attributes[j].0 != name
    requires i < |attributes| ==> attributes[i].0 == name
    ensures Attribute(attributes, name) == if i < |attributes| then attributes[i].1 else ""
  {
    if i == 0 {
    } else {
      assert forall j :: 0 <= j < i - 1 ==> attributes[1..][j] == attributes[j + 1];
      AttributeAt(attributes[1..], name, i - 1);
    }
  }

  lemma AttributeIsCarried(attributes: Attributes, name: string, value: string)
    requires IsDistinct(attributes)
    ensures Attribute(attributes, name) == value <==> Carries(attributes, name, value)
  {
    hide Attribute;
    if i: nat :| i < |attributes| && attributes[i].0 == name {
      AttributeAt(attributes, name, i);
      assert attributes[i] in attributes;
    } else {
      AttributeAt(attributes, name, |attributes|);
    }
  }

  // ---- The start of a NODE. ----

  datatype NodeValues = NodeValues(ord: string, alloc: string, lem: string, mi: string, form: string, unknown: string)

  ghost predicate HasValues(attributes: Attributes, v: NodeValues)
  {
    && IsDistinct(attributes)
    && Carries(attributes, "ord", v.ord) && Carries(attributes, "alloc", v.alloc) && Carries(attributes, "lem", v.lem)
    && Carries(attributes, "mi", v.mi) && Carries(attributes, "form", v.form)
    && Carries(attributes, "unknown", v.unknown)
  }

  lemma ValuesAreFound(attributes: Attributes, v: NodeValues)
    requires HasValues(attributes, v)
    ensures Attribute(attributes, "ord") == v.ord && Attribute(attributes, "alloc") == v.alloc
    ensures Attribute(attributes, "lem") == v.lem && Attribute(attributes, "mi") == v.mi
    ensures Attribute(attributes, "form") == v.form && Attribute(attributes, "unknown") == v.unknown
  {
    hide Attribute, Carries, IsDistinct;
    AttributeIsCarried(attributes, "ord", v.ord);
    AttributeIsCarried(attributes, "alloc", v.alloc);
    AttributeIsCarried(attributes, "lem", v.lem);
    AttributeIsCarried(attributes, "mi", v.mi);
    AttributeIsCarried(attributes, "form", v.form);
    AttributeIsCarried(attributes, "unknown", v.unknown);
  }

  function StartText(lex: Lexicon, v: NodeValues): string
  {
    "ref='" + lex.escape(v.ord) + "' alloc='" + lex.escape(v.alloc) + "' slem='" + lex.escape(v.lem)
    + "' smi='" + lex.escape(v.mi) + "' sform='" + lex.escape(v.form)
    + "' UpCase='" + lex.escape(lex.upperType(v.form, v.mi, v.ord)) + "'"
  }

  lemma StartIsBase(lex: Lexicon, attributes: Attributes, v: NodeValues)
    requires HasValues(attributes, v)
    ensures BaseText(lex, attributes) == StartText(lex, v)
  {
    hide Attribute, HasValues;
    ValuesAreFound(attributes, v);
    SixFields(lex.escape(v.ord), lex.escape(v.alloc), lex.escape(v.lem), lex.escape(v.mi), lex.escape(v.form),
              lex.escape(lex.upperType(v.form, v.mi, v.ord)));
  }

  lemma SixFields(a: string, b: string, c: string, d: string, e: string, f: string)
    ensures "ref" + "='" + a + "'" + " " + ("alloc" + "='" + b + "'") + " " + ("slem" + "='" + c + "'") + " "
        + ("smi" + "='" + d + "'") + " " + ("sform" + "='" + e + "'") + " " + ("UpCase" + "='" + f + "'")
      == "ref='" + a + "' alloc='" + b + "' slem='" + c + "' smi='" + d + "' sform='" + e + "' UpCase='" + f + "'"
  {
    var t1 := "ref='" + a;
    var t2 := t1 + "' alloc='" + b;
    var t3 := t2 + "' slem='" + c;
    var t4 := t3 + "' smi='" + d;
    var t5 := t4 + "' sform='" + e;
    assert "ref" + "='" + a + "'" == t1 + "'";
    NextField(t1, "alloc", b, "' alloc='");
    NextField(t2, "slem", c, "' slem='");
    NextField(t3, "smi", d, "' smi='");
    NextField(t4, "sform", e, "' sform='");
    NextField(t5, "UpCase", f, "' UpCase='");
  }

  lemma NextField(before: string, name: string, value: string, sep: string)
    requires sep == "' " + name + "='"
    ensures before + "'" + " " + (name + "='" + value + "'") == before + sep + value + "'"
  {
  }

  // The tags of a NODE whose start has this text, with these children put in before its own.
  ghost predicate Shows(lex: Lexicon, t: NodeTree, text: string, children: seq<Tag>)
  {
    NodeTags(lex, t)
    == if t.EmptyNode? && children == [] then [EmptyTag("NODE", text, false)]
       else
         [OpenTag("NODE", text)] + children + (if t.InnerNode? then NodesTags(lex, t.nodes) else [])
         + [CloseTag("NODE")]
  }

  // One SYN for each translation.
  ghost predicate AreSynonyms(tags: seq<Tag>, translations: seq<string>, slem: string)
  {
    |tags| == |translations| && forall i :: 0 <= i < |tags| ==> tags[i] == EmptyTag("SYN", translations[i] + slem, true)
  }

  // One NODE for each part of a translation but the first.
  ghost predicate AreParts(tags: seq<Tag>, parts: seq<string>, text: string)
  {
    && |tags| == (if parts == [] then 0 else |parts| - 1)
    && forall i :: 0 <= i < |tags| ==> tags[i] == EmptyTag("NODE", text + " " + parts[i + 1] + " ", true)
  }

  // Numbers and dates are looked up by their form.
  ghost predicate ByForm(mi: string)
  {
    (mi != "" && mi[0] == 'Z') || (|mi| >= 2 && mi[0] == 'D' && mi[1] == 'N')
  }

  lemma ByFormIs(mi: string)
    ensures ByForm(mi) <==> "Z" <= mi || "DN" <= mi
  {
  }

  lemma HeadShown(lex: Lexicon, t: NodeTree)
    ensures var head := HeadOr(lex, t.attributes);
      Shows(lex, t, head.text, head.inserted)
  {
    hide HeadOr;
    var head := HeadOr(lex, t.attributes);
    var begin := [OpenTag("NODE", head.text)] + head.inserted;
    assert begin + [] == begin;
  }

  // A word the input marks as unknown is not looked up.
  lemma UnknownNode(lex: Lexicon, t: NodeTree, v: NodeValues)
    requires HasValues(t.attributes, v) && v.unknown != ""
    ensures Shows(lex, t, StartText(lex, v) + " unknown='" + lex.escape(v.unknown) + "'", [])
  {
    hide Shows, Attribute, HasValues, BaseText, StartText, LookUpNode;
    ValuesAreFound(t.attributes, v);
    StartIsBase(lex, t.attributes, v);
    HeadShown(lex, t);
    var start, unknown := StartText(lex, v), lex.escape(v.unknown);
    assert start + " " + ("unknown" + "='" + unknown + "'") == start + " unknown='" + unknown + "'";
  }

  // An unambiguous word, or a number looked up by its form: the first translation is taken, all are synonyms
  // when there are several, and the parts of a multi-word translation become nodes.
  lemma PlainNode(lex: Lexicon, t: NodeTree, v: NodeValues) returns (synonyms: seq<Tag>, parts: seq<Tag>)
    requires HasValues(t.attributes, v) && v.unknown == "" && (ByForm(v.mi) || '#' !in v.lem)
    ensures var trad := lex.translate(if ByForm(v.mi) then v.form else v.lem, v.mi);
      var start := StartText(lex, v);
      if trad == [] then Shows(lex, t, start + " unknown='transfer'", [])
      else
        && Shows(lex, t, start + " " + trad[0], synonyms + parts)
        && AreSynonyms(synonyms, if |trad| > 1 then trad else [], "")
        && AreParts(parts, if '\\' in trad[0] then lex.splitMulti(trad[0]) else [], start)
  {
    hide Shows, Attribute, HasValues, BaseText, StartText;
    ValuesAreFound(t.attributes, v);
    StartIsBase(lex, t.attributes, v);
    HeadShown(lex, t);
    ByFormIs(v.mi);
    FindIsAbsent(v.lem);
    var trad := lex.translate(if ByForm(v.mi) then v.form else v.lem, v.mi);
    var start := StartText(lex, v);
    assert LookUpNode(lex, t.attributes) == Some(LookUp(trad, [], "", "", false));
    hide LookUpNode;
    synonyms := if |trad| > 1 then Synonyms(trad) else [];
    parts := if trad != [] && '\\' in trad[0] then MultiNodes(lex, trad[0], start) else [];
    assert synonyms + [] + parts == synonyms + parts;
    assert forall i :: 0 <= i < |trad| ==> trad[i] + "" == trad[i];
  }

  lemma FindIsAbsent(s: string)
    ensures '#' !in s ==> Find(s, '#', 0) == |s|
  {
  }

  // An ambiguous word: both lemmas are looked up, the first that has a translation gives it and is named in
  // tradlem, and all translations of each are synonyms with its lemma when there are several in all.
  lemma AmbiguousNode(lex: Lexicon, t: NodeTree, v: NodeValues, lem1: string, sign: char, lem2: string)
    returns (first: seq<Tag>, second: seq<Tag>, parts: seq<Tag>)
    requires HasValues(t.attributes, v) && v.unknown == "" && !ByForm(v.mi)
    requires v.lem == lem1 + "#" + [sign] + lem2 && '#' !in lem1
    ensures var trad1, trad2 := lex.translate(lem1, v.mi), lex.translate(lem2, v.mi);
      var start := StartText(lex, v);
      if trad1 == [] && trad2 == [] then Shows(lex, t, start + " unknown='transfer'", [])
      else
        var several := |trad1| + |trad2| > 1;
        var select, lem := if trad1 != [] then trad1[0] else trad2[0], if trad1 != [] then lem1 else lem2;
        var text := start + " tradlem='" + lem + "' ";
        && Shows(lex, t, text + " " + select, first + second + parts)
        && AreSynonyms(first, if several then trad1 else [], " slem='" + lem1 + "' ")
        && AreSynonyms(second, if several then trad2 else [], " slem='" + lem2 + "' ")
        && AreParts(parts, if '\\' in select then lex.splitMulti(select) else [], text)
  {
    hide Shows, Attribute, HasValues, BaseText, StartText;
    ValuesAreFound(t.attributes, v);
    StartIsBase(lex, t.attributes, v);
    HeadShown(lex, t);
    ByFormIs(v.mi);
    LemmasAre(v.lem, lem1, sign, lem2);
    var trad1, trad2 := lex.translate(lem1, v.mi), lex.translate(lem2, v.mi);
    var found := LookUp(trad1, trad2, lem1, lem2, true);
    assert LookUpNode(lex, t.attributes) == Some(found);
    first, second := FirstSynonyms(found), SecondSynonyms(found);
    parts := [];
    if !Unknown(found) {
      var text := Marked(StartText(lex, v), found);
      parts := if '\\' in Selected(found) then MultiNodes(lex, Selected(found), text) else [];
    }
    Suffixed(trad1, lem1);
    Suffixed(trad2, lem2);
  }

  lemma LemmasAre(lem: string, lem1: string, sign: char, lem2: string)
    requires lem == lem1 + "#" + [sign] + lem2 && '#' !in lem1
    ensures Find(lem, '#', 0) == |lem1| && |lem1| + 2 <= |lem|
    ensures lem[..|lem1|] == lem1 && lem[|lem1| + 2..] == lem2
  {
    FindIs(lem, '#', 0, |lem1|);
  }

  lemma Suffixed(trad: seq<string>, lem: string)
    ensures forall i :: 0 <= i < |trad| ==> trad[i] + " slem='" + lem + "' " == trad[i] + (" slem='" + lem + "' ")
  {
  }

  // The transfer exits at a NODE exactly when its lemma ends at the first '#', unless it is not looked at.
  lemma NodeExitsIff(lex: Lexicon, attributes: Attributes, v: NodeValues)
    requires HasValues(attributes, v)
    ensures NodeOk(lex, EmptyNode(attributes)) <==>
      !(v.unknown == "" && !ByForm(v.mi) && v.lem != "" && v.lem[|v.lem| - 1] == '#' && '#' !in v.lem[..|v.lem| - 1])
  {
    hide Attribute, HasValues, BaseText;
    ValuesAreFound(attributes, v);
    ByFormIs(v.mi);
    LoneSign(v.lem);
  }

  lemma LoneSign(lem: string)
    ensures var split := Find(lem, '#', 0);
      split < |lem| && split + 2 > |lem| <==>
        lem != "" && lem[|lem| - 1] == '#' && '#' !in lem[..|lem| - 1]
  {
    var split := Find(lem, '#', 0);
    assert lem[0..split] == lem[..split];
    if lem != "" && lem[|lem| - 1] == '#' && '#' !in lem[..|lem| - 1] {
      assert forall i :: 0 <= i < |lem| - 1 ==> lem[i] == lem[..|lem| - 1][i];
      FindIs(lem, '#', 0, |lem| - 1);
    }
  }

  // ---- CHUNK and SENTENCE. ----

  // The type is looked up in the table and stays when it is not there; without one the function si is taken.
  lemma ChunkStart(lex: Lexicon, t: ChunkTree, ord: string, oldType: string, si: string)
    requires IsDistinct(t.attributes) && Carries(t.attributes, "ord", ord)
    requires Carries(t.attributes, "type", oldType) && Carries(t.attributes, "si", si)
    ensures var key := if oldType != "" then oldType else si;
      var chunkType := if lex.chunkType(key) != "" then lex.chunkType(key) else key;
      ChunkTags(lex, t)
      == [OpenTag("CHUNK", "ref='" + lex.escape(ord) + "' type='" + lex.escape(chunkType) + "'"
                           + lex.escape(lex.allExceptOrdAndType(t.attributes)))]
         + NodeTags(lex, t.node) + ChunksTags(lex, t.chunks) + [CloseTag("CHUNK")]
  {
    hide Attribute, Carries, IsDistinct, NodeTags, ChunksTags;
    AttributeIsCarried(t.attributes, "ord", ord);
    AttributeIsCarried(t.attributes, "type", oldType);
    AttributeIsCarried(t.attributes, "si", si);
    var key := if oldType != "" then oldType else si;
    var chunkType := if lex.chunkType(key) != "" then lex.chunkType(key) else key;
    var a, b := lex.escape(ord), lex.escape(chunkType);
    assert "ref" + "='" + a + "'" + " " + ("type" + "='" + b + "'") == "ref='" + a + "' type='" + b + "'";
  }

  lemma SentenceStart(lex: Lexicon, t: SentenceTree, ord: string)
    requires IsDistinct(t.attributes) && Carries(t.attributes, "ord", ord)
    ensures SentenceTags(lex, t)
      == [OpenTag("SENTENCE", "ref='" + lex.escape(ord) + "'" + lex.escape(lex.allExceptOrd(t.attributes)))]
         + ChunksTags(lex, t.chunks) + [CloseTag("SENTENCE")]
  {
    hide Attribute, Carries, IsDistinct, ChunksTags;
    AttributeIsCarried(t.attributes, "ord", ord);
    assert "ref" + "='" + lex.escape(ord) + "'" == "ref='" + lex.escape(ord) + "'";
  }
}
