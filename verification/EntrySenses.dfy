// The sense order_ordainak reads from the attribute text of a dictionary entry is that of the entry's
// first key named sense (squoia_xfer_lex.cc).
module EntrySenses {
  import opened Options
  import opened Strings
  import opened Tokens
  import opened Escaping
  import opened AttributeText
  import opened SenseOrder

  // ---- Escaping does not change a number. ----

  lemma {:induction false} DigitsEscaped(prev: Option<char>, s: string, value: nat)
    ensures Digits(EscapeFrom(prev, s), value) == Digits(s, value)
    decreases |s|
  {
    if s == "" {
    } else {
      hide EscapeFrom;
      var head, tail := Substitute(prev, s[0], s[1..]), EscapeFrom(Some(s[0]), s[1..]);
      EscapeFromStep(prev, s);
      assert (head + tail)[0] == head[0];
      if IsDigit(s[0]) {
        assert (head + tail)[1..] == tail;
        DigitsEscaped(Some(s[0]), s[1..], 10 * value + (s[0] - '0') as nat);
      }
    }
  }

  lemma {:induction false} LongEscaped(prev: Option<char>, s: string)
    ensures ParseLong(EscapeFrom(prev, s)) == ParseLong(s)
    decreases |s|
  {
    hide Digits;
    if s == "" {
    } else {
      var head, tail := Substitute(prev, s[0], s[1..]), EscapeFrom(Some(s[0]), s[1..]);
      assert EscapeFrom(prev, s) == head + tail && (head + tail)[0] == head[0];
      if IsSpace(s[0]) || s[0] == '-' || s[0] == '+' {
        assert (head + tail)[1..] == tail;
        LongEscaped(Some(s[0]), s[1..]);
        DigitsEscaped(Some(s[0]), s[1..], 0);
      } else {
        DigitsEscaped(prev, s, 0);
      }
    }
  }

  lemma LongStays(s: string)
    ensures ParseLong(Escape(s)) == ParseLong(s)
  {
    LongEscaped(None, s);
  }

  // ---- Where the sense is found. ----

  // The closing quote is found as well.
  ghost predicate HasSense(text: string)
  {
    var pos := FindText(text, SENSE, 0);
    pos < |text| && Find(text, '\'', pos + |SENSE|) < |text|
  }

  ghost predicate NoSense(text: string)
  {
    FindText(text, SENSE, 0) == |text|
  }

  // The part is found in front of any text that follows.
  lemma Extends(s: string, more: string, part: string, i: nat)
    requires i + |part| <= |s|
    ensures part <= (s + more)[i..] <==> part <= s[i..]
  {
    assert (s + more)[i..] == s[i..] + more;
  }

  lemma SenseAt(text: string, pos: nat, pos2: nat)
    requires pos + |SENSE| <= pos2 < |text| && SENSE <= text[pos..] && text[pos2] == '\''
    requires forall i :: 0 <= i < pos ==> !(SENSE <= text[i..])
    requires forall i :: pos + |SENSE| <= i < pos2 ==> text[i] != '\''
    ensures HasSense(text) && SenseOf(text) == ParseLong(text[pos + |SENSE|..pos2])
    ensures FindText(text, SENSE, 0) == pos && Find(text, '\'', pos + |SENSE|) == pos2
  {
    hide FindText, Find, ParseLong;
    FindTextIs(text, SENSE, 0, pos);
    FindIs(text, '\'', pos + |SENSE|, pos2);
  }

  lemma SenseStays(text: string, more: string)
    requires HasSense(text)
    ensures HasSense(text + more) && SenseOf(text + more) == SenseOf(text)
  {
    hide FindText, Find, ParseLong;
    var all, pos := text + more, FindText(text, SENSE, 0);
    var from := pos + |SENSE|;
    var pos2 := Find(text, '\'', from);
    forall i | 0 <= i <= pos
      ensures SENSE <= all[i..] <==> SENSE <= text[i..]
    {
      Extends(text, more, SENSE, i);
    }
    assert forall i :: from <= i < pos2 ==> text[i] == text[from..pos2][i - from];
    SenseAt(text, pos, pos2);
    SenseAt(all, pos, pos2);
    assert all[from..pos2] == text[from..pos2];
  }

  lemma PairStart(name: string, value: string)
    requires Free(name, "=")
    ensures "sense='" <= Pair(name, value) <==> name == "sense"
  {
    hide Find;
    var pair := Pair(name, value);
    FindIs(pair, '=', 0, |name|);
    if "sense='" <= pair {
      assert forall i :: 0 <= i < 7 ==> pair[i] == "sense='"[i];
      FindIs(pair, '=', 0, 5);
      assert name == pair[..5];
    }
    if name == "sense" {
      assert pair == "sense='" + (value + "'");
    }
  }

  // In a text without a sense, one more pair brings one exactly when its name is sense.
  lemma SenseBegins(text: string, name: string, value: string)
    requires NoSense(text) && Plain(name) && Plain(value)
    ensures var more := text + " " + Pair(name, value);
      if name == "sense" then HasSense(more) && SenseOf(more) == ParseLong(value) else NoSense(more)
  {
    hide FindText, Find, SenseOf, ParseLong, HasSense, Pair;
    var all, n := text + " " + Pair(name, value), |text|;
    forall i: nat | i <= |all|
      ensures SENSE <= all[i..] <==> i == n && name == "sense"
    {
      NoOtherSense(text, name, value, i);
    }
    if name == "sense" {
      SensePair(text, value);
      SenseAt(all, n, |all| - 1);
    } else {
      FindTextIs(all, SENSE, 0, |all|);
    }
  }

  lemma SensePair(text: string, value: string)
    requires Plain(value)
    ensures var all, from := text + " " + Pair("sense", value), |text| + |SENSE|;
      && |all| == from + |value| + 1 && all[|all| - 1] == '\'' && all[from..|all| - 1] == value
      && forall i :: from <= i < |all| - 1 ==> all[i] != '\''
  {
    assert text + " " + Pair("sense", value) == text + SENSE + value + "'";
  }

  lemma Cons(c: char, a: string, b: string)
    ensures [c] + a <= [c] + b <==> a <= b
  {
    assert ([c] + a)[1..] == a && ([c] + b)[1..] == b;
    if a <= b {
      assert b == a + b[|a|..];
      assert [c] + b == [c] + a + b[|a|..];
    }
  }

  lemma NoOtherSense(text: string, name: string, value: string, i: nat)
    requires NoSense(text) && Plain(name) && Plain(value)
    requires i <= |text| + 1 + |Pair(name, value)|
    ensures SENSE <= (text + " " + Pair(name, value))[i..] <==> i == |text| && name == "sense"
  {
    hide FindText, Plain, Pair;
    var pair := Pair(name, value);
    var all, n := text + " " + pair, |text|;
    if i + |SENSE| <= n {
      assert all == text + (" " + pair);
      Extends(text, " " + pair, SENSE, i);
      assert i < FindText(text, SENSE, 0);
    } else if i < n {
      assert all[i..][n - i] == ' ' && SENSE[n - i] != ' ';
    } else if i == n {
      assert all[i..] == [' '] + pair && SENSE == [' '] + "sense='";
      Cons(' ', "sense='", pair);
      PlainFree(name);
      PairStart(name, value);
    } else {
      PairIsFree(name, value);
      assert all[i..] == pair[i - n - 1..];
      assert i < |all| ==> all[i..][0] == pair[i - n - 1];
    }
  }

  lemma PairIsFree(name: string, value: string)
    requires Plain(name) && Plain(value)
    ensures forall i :: 0 <= i < |Pair(name, value)| ==> Pair(name, value)[i] != ' '
  {
  }

  lemma {:induction false} FirstValueSnoc(pairs: seq<(string, string)>, last: (string, string), name: string)
    ensures FirstValue(pairs + [last], name)
      == if FirstValue(pairs, name).Some? then FirstValue(pairs, name)
         else if last.0 == name then Some(last.1) else None
  {
    if pairs == [] {
      assert [last][1..] == [];
      assert [] + [last] == [last];
    } else {
      assert (pairs + [last])[1..] == pairs[1..] + [last];
      FirstValueSnoc(pairs[1..], last, name);
    }
  }

  ghost predicate PlainPairList(pairs: seq<(string, string)>)
  {
    forall i :: 0 <= i < |pairs| ==> Plain(pairs[i].0) && Plain(pairs[i].1)
  }

  lemma {:induction false} SenseOfPairs(first: string, pairs: seq<(string, string)>)
    requires Free(first, " ") && PlainPairList(pairs)
    ensures var text := first + Spaced(Printed(pairs));
      match FirstValue(pairs, "sense")
      case None => NoSense(text)
      case Some(v) => HasSense(text) && SenseOf(text) == ParseLong(v)
  {
    hide FindText, Find, SenseOf, ParseLong, HasSense, NoSense, Plain, Free, Spaced, Printed, Escape, Pair, FirstValue;
    if pairs == [] {
      NothingPrinted(first);
    } else {
      var n := |pairs| - 1;
      var last := pairs[n];
      SenseOfPairs(first, pairs[..n]);
      assert pairs == pairs[..n] + [last];
      FirstValueSnoc(pairs[..n], last, "sense");
      PrintedSnoc(first, pairs[..n], last);
      EscapeStaysPlainString(last.1);
      LongStays(last.1);
      var before, more := first + Spaced(Printed(pairs[..n])), Pair(last.0, Escape(last.1));
      assert before + " " + more == before + (" " + more);
      if FirstValue(pairs[..n], "sense").Some? {
        SenseStays(before, " " + more);
      } else {
        SenseBegins(before, last.0, Escape(last.1));
      }
    }
  }

  lemma NothingPrinted(first: string)
    requires Free(first, " ")
    ensures NoSense(first + Spaced(Printed([]))) && FirstValue([], "sense") == None
  {
    assert first + "" == first;
    forall i | 0 <= i < |first|
      ensures !(SENSE <= first[i..])
    {
      assert first[i..][0] == first[i];
    }
    FindTextIs(first, SENSE, 0, |first|);
  }

  lemma PrintedSnoc(first: string, pairs: seq<(string, string)>, last: (string, string))
    ensures first + Spaced(Printed(pairs + [last]))
      == first + Spaced(Printed(pairs)) + " " + Pair(last.0, Escape(last.1))
  {
    hide Escape;
    var texts, more := Printed(pairs + [last]), Pair(last.0, Escape(last.1));
    assert texts == Printed(pairs) + [more];
    assert texts[..|pairs|] == Printed(pairs);
    var before := Spaced(Printed(pairs));
    assert first + (before + " " + more) == first + before + " " + more;
  }

  // ---- The sense of an entry. ----

  function SenseOfEntry(e: DictEntry): int
  {
    match FirstValue(e.pairs, "sense")
    case None => 0
    case Some(v) => ParseLong(v)
  }

  lemma SenseIsRead(e: DictEntry)
    requires PlainEntry(e)
    ensures ReadableText(EntryText(e.lem, e.pairs))
    ensures SenseOf(DictText(EntryText(e.lem, e.pairs))) == SenseOfEntry(e)
  {
    hide SenseOf, DictText, EntryText, ReadableText, Spaced;
    EntryIsPrinted(e);
    forall i | 0 <= i < |e.pairs|
      ensures Plain(e.pairs[i].0) && Plain(e.pairs[i].1)
    {
      assert AllPairs(e)[i + 1] == e.pairs[i];
      PlainPairs(e, i + 1);
    }
    LemIsFree(e);
    var first := Printed(AllPairs(e))[0];
    assert Printed(AllPairs(e))[1..] == Printed(e.pairs);
    SenseOfPairs(first, e.pairs);
    NoSenseIsZero(first + Spaced(Printed(e.pairs)));
  }

  lemma LemIsFree(e: DictEntry)
    requires PlainEntry(e)
    ensures Free(Printed(AllPairs(e))[0], " ")
  {
    PlainPairs(e, 0);
    EscapeStaysPlainString(e.lem);
    PairReadsBack("lem", Escape(e.lem));
  }

  lemma NoSenseIsZero(text: string)
    ensures NoSense(text) ==> SenseOf(text) == 0
  {
  }

  // A sense whose value is not closed does not count.
  lemma OpenSenseIsZero(text: string, value: string)
    requires '\'' !in value && FindText(text + SENSE + value, SENSE, 0) == |text|
    ensures SenseOf(text + SENSE + value) == 0
  {
    hide FindText, Find, ParseLong;
    NoQuoteBehind(text + SENSE, value);
  }

  lemma NoQuoteBehind(before: string, value: string)
    requires '\'' !in value
    ensures Find(before + value, '\'', |before|) == |before + value|
  {
    FindIs(before + value, '\'', |before|, |before + value|);
  }
}
