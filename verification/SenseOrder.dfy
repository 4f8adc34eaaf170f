// order_ordainak of squoia_xfer_lex.cc: dictionary alternatives are placed by their sense number in a
// vector that is resized as needed; entries with sense 0 are inserted at the front.
module SenseOrder {
  import opened Options
  import opened Strings
  import opened Numerals

  // ---- The sense of an entry. ----

  predicate IsSpace(c: char)
  {
    c == ' ' || '\t' <= c <= '\r'
  }

  lemma SpaceIff(c: char)
    ensures IsSpace(c) <==> c in {' ', '\t', '\n', '\U{000B}', '\U{000C}', '\r'}
  {
  }

  predicate IsDigit(c: char)
  {
    '0' <= c <= '9'
  }

  function Digits(s: string, value: nat): nat
  {
    if s == "" || !IsDigit(s[0]) then value else Digits(s[1..], 10 * value + (s[0] - '0') as nat)
  }

  // wcstol in base 10.
  function ParseLong(s: string): int
  {
    if s != "" && IsSpace(s[0]) then ParseLong(s[1..])
    else if s != "" && s[0] == '-' then 0 - Digits(s[1..], 0)
    else if s != "" && s[0] == '+' then Digits(s[1..], 0)
    else Digits(s, 0)
  }

  lemma {:induction false} DigitsAppend(s: string, t: string, value: nat)
    requires forall i :: 0 <= i < |s| ==> IsDigit(s[i])
    ensures Digits(s + t, value) == Digits(t, Digits(s, value))
    decreases |s|
  {
    if s == "" {
      assert s + t == t;
    } else {
      assert (s + t)[0] == s[0] && (s + t)[1..] == s[1..] + t;
      DigitsAppend(s[1..], t, 10 * value + (s[0] - '0') as nat);
    }
  }

  lemma {:induction false} DecimalIsRead(n: nat)
    ensures Digits(Decimal(n), 0) == n && forall i :: 0 <= i < |Decimal(n)| ==> IsDigit(Decimal(n)[i])
  {
    var last := [Digit(n % 10)];
    assert last[1..] == "" && Digits(last[1..], 0) == 0;
    if n >= 10 {
      DecimalIsRead(n / 10);
      DigitsAppend(Decimal(n / 10), last, 0);
      assert Digits(last, n / 10) == Digits(last[1..], 10 * (n / 10) + n % 10);
    }
  }

  // A number in decimal notation is read, with a sign and white space in front, and with what is no digit behind.
  lemma NumberIsRead(n: nat, space: string, sign: string, rest: string)
    requires (forall i :: 0 <= i < |space| ==> IsSpace(space[i])) && (rest == "" || !IsDigit(rest[0]))
    requires sign in {"", "+", "-"}
    ensures ParseLong(space + (sign + (Decimal(n) + rest))) == if sign == "-" then 0 - n as int else n
  {
    hide Decimal, Digits, ParseLong;
    SpaceIsSkipped(space, sign + (Decimal(n) + rest));
    DecimalIsRead(n);
    DigitsAppend(Decimal(n), rest, 0);
    NoMoreDigits(rest, n);
    DecimalStarts(n);
    SignIsRead(sign, Decimal(n) + rest);
  }

  lemma SignIsRead(sign: string, digits: string)
    requires sign in {"", "+", "-"} && digits != "" && IsDigit(digits[0])
    ensures ParseLong(sign + digits) == if sign == "-" then 0 - Digits(digits, 0) else Digits(digits, 0)
  {
    hide Digits;
    if sign == "" {
      assert sign + digits == digits;
    } else {
      assert (sign + digits)[1..] == digits;
    }
  }

  lemma NoMoreDigits(rest: string, value: nat)
    requires rest == "" || !IsDigit(rest[0])
    ensures Digits(rest, value) == value
  {
  }

  lemma DecimalStarts(n: nat)
    ensures Decimal(n) != "" && forall rest :: (Decimal(n) + rest)[0] == Decimal(n)[0]
  {
  }

  lemma {:induction false} SpaceIsSkipped(space: string, s: string)
    requires forall i :: 0 <= i < |space| ==> IsSpace(space[i])
    ensures ParseLong(space + s) == ParseLong(s)
  {
    hide Digits;
    if space == "" {
      assert space + s == s;
    } else {
      assert (space + s)[0] == space[0] && (space + s)[1..] == space[1..] + s;
      SpaceIsSkipped(space[1..], s);
    }
  }

  const SENSE := " sense='"

  function SenseOf(entry: string): int
  {
    var pos := FindText(entry, SENSE, 0);
    if pos == |entry| then 0
    else
      var from := pos + |SENSE|;
      var pos2 := Find(entry, '\'', from);
      if pos2 == |entry| then 0 else ParseLong(entry[from..pos2])
  }

  // ---- Where an entry ends up. ----

  function Zeros(senses: seq<nat>): nat
  {
    if senses == [] then 0
    else Zeros(senses[..|senses| - 1]) + (if senses[|senses| - 1] == 0 then 1 else 0)
  }

  // The place an entry is put at: the front for sense 0, and otherwise its sense, less one as long
  // as no sense 0 has been seen.
  function Place(senses: seq<nat>, i: nat): nat
    requires i < |senses|
  {
    if senses[i] == 0 then 0 else if Zeros(senses[..i]) == 0 then senses[i] - 1 else senses[i]
  }

  // Its final slot: every later sense 0 moves it one further.
  function Slot(senses: seq<nat>, i: nat): nat
    requires i < |senses|
    decreases |senses|
  {
    var n := |senses| - 1;
    if i == n then Place(senses, i) else Slot(senses[..n], i) + (if senses[n] == 0 then 1 else 0)
  }

  // The entry that is seen in slot p at the end: the last of those that are put there.
  function OccupantBelow(senses: seq<nat>, k: nat, p: nat): (r: Option<nat>)
    requires k <= |senses|
    ensures r.Some? ==> r.value < k && Slot(senses, r.value) == p
    ensures forall i: nat :: i < k && Slot(senses, i) == p ==> r.Some? && i <= r.value
  {
    if k == 0 then None else if Slot(senses, k - 1) == p then Some(k - 1) else OccupantBelow(senses, k - 1, p)
  }

  function Occupant(senses: seq<nat>, p: nat): Option<nat>
  {
    OccupantBelow(senses, |senses|, p)
  }

  // One more than the largest slot.
  function LengthBelow(senses: seq<nat>, k: nat): (r: nat)
    requires k <= |senses|
    ensures forall i: nat :: i < k ==> Slot(senses, i) < r
    ensures k > 0 ==> r > 0 && exists i: nat :: i < k && Slot(senses, i) == r - 1
    ensures k == 0 ==> r == 0
  {
    if k == 0 then 0
    else
      var r := LengthBelow(senses, k - 1);
      var slot := Slot(senses, k - 1);
      if slot >= r then slot + 1 else r
  }

  function Entry(entries: seq<string>, i: Option<nat>): string
  {
    if i.Some? && i.value < |entries| then entries[i.value] else ""
  }

  function Ordered(entries: seq<string>, senses: seq<nat>): seq<string>
    requires |entries| == |senses|
  {
    seq(LengthBelow(senses, |senses|), p requires 0 <= p => Entry(entries, Occupant(senses, p)))
  }

  // ---- The loop. ----

  lemma SlotSnoc(senses: seq<nat>, sense: nat, i: nat)
    requires i < |senses|
    ensures Slot(senses + [sense], i) == Slot(senses, i) + (if sense == 0 then 1 else 0)
  {
    assert (senses + [sense])[..|senses|] == senses;
  }

  lemma {:induction false} OccupantSnoc(senses: seq<nat>, sense: nat, k: nat, p: nat)
    requires k <= |senses|
    ensures OccupantBelow(senses + [sense], k, p)
      == if sense != 0 then OccupantBelow(senses, k, p)
         else if p == 0 then None
         else OccupantBelow(senses, k, p - 1)
  {
    if k == 0 {
    } else {
      SlotSnoc(senses, sense, k - 1);
      OccupantSnoc(senses, sense, k - 1, p);
    }
  }

  lemma {:induction false} LengthSnoc(senses: seq<nat>, sense: nat, k: nat)
    requires k <= |senses|
    ensures LengthBelow(senses + [sense], k)
      == LengthBelow(senses, k) + (if sense == 0 && k > 0 then 1 else 0)
  {
    if k == 0 {
    } else {
      SlotSnoc(senses, sense, k - 1);
      LengthSnoc(senses, sense, k - 1);
    }
  }

  lemma FrontStep(entries: seq<string>, senses: seq<nat>, entry: string)
    requires |entries| == |senses|
    ensures Ordered(entries + [entry], senses + [0]) == [entry] + Ordered(entries, senses)
  {
    var n := |senses|;
    LengthSnoc(senses, 0, n);
    var after := Ordered(entries + [entry], senses + [0]);
    assert |after| == 1 + |Ordered(entries, senses)|;
    forall p | 0 <= p < |after|
      ensures after[p] == ([entry] + Ordered(entries, senses))[p]
    {
      OccupantSnoc(senses, 0, n, p);
    }
  }

  function Resized(list: seq<string>, size: nat): seq<string>
  {
    if |list| < size then list + seq(size - |list|, i => "") else list
  }

  // ordered.resize(...) when needed, and ordered[index] = entry.
  function Assigned(list: seq<string>, index: nat, entry: string): seq<string>
  {
    Resized(list, index + 1)[index := entry]
  }

  lemma AssignedAt(list: seq<string>, index: nat, entry: string)
    ensures |Assigned(list, index, entry)| == if index >= |list| then index + 1 else |list|
    ensures forall p :: 0 <= p < |Assigned(list, index, entry)| ==>
      Assigned(list, index, entry)[p] == if p == index then entry else if p < |list| then list[p] else ""
  {
  }

  lemma PlaceStep(entries: seq<string>, senses: seq<nat>, entry: string, sense: nat)
    requires |entries| == |senses| && sense > 0
    ensures var index := if Zeros(senses) == 0 then sense - 1 else sense;
      Ordered(entries + [entry], senses + [sense]) == Assigned(Ordered(entries, senses), index, entry)
  {
    hide Ordered, Slot, OccupantBelow, LengthBelow, Zeros, Assigned, Entry, Occupant;
    var index := if Zeros(senses) == 0 then sense - 1 else sense;
    var before, after := Ordered(entries, senses), Ordered(entries + [entry], senses + [sense]);
    OrderedAt(entries, senses);
    OrderedAt(entries + [entry], senses + [sense]);
    AssignedAt(before, index, entry);
    PlaceLength(senses, sense);
    forall p: nat | p < |after|
      ensures after[p] == Assigned(before, index, entry)[p]
    {
      PlaceStepAt(entries, senses, entry, sense, p);
    }
  }

  lemma PlaceLength(senses: seq<nat>, sense: nat)
    requires sense > 0
    ensures var index := if Zeros(senses) == 0 then sense - 1 else sense;
      var before := LengthBelow(senses, |senses|);
      LengthBelow(senses + [sense], |senses| + 1) == if index >= before then index + 1 else before
  {
    LastSlot(senses, sense);
    LengthSnoc(senses, sense, |senses|);
    hide Slot, LengthBelow, Zeros;
    LastSteps(senses + [sense]);
  }

  lemma OrderedAt(entries: seq<string>, senses: seq<nat>)
    requires |entries| == |senses|
    ensures |Ordered(entries, senses)| == LengthBelow(senses, |senses|)
    ensures forall p :: 0 <= p < |Ordered(entries, senses)| ==>
      Ordered(entries, senses)[p] == Entry(entries, Occupant(senses, p))
  {
  }

  lemma PlaceStepAt(entries: seq<string>, senses: seq<nat>, entry: string, sense: nat, p: nat)
    requires |entries| == |senses| && sense > 0
    ensures Entry(entries + [entry], Occupant(senses + [sense], p))
      == if p == (if Zeros(senses) == 0 then sense - 1 else sense) then entry else Entry(entries, Occupant(senses, p))
    ensures p >= LengthBelow(senses, |senses|) ==> Entry(entries, Occupant(senses, p)) == ""
  {
    LastSlot(senses, sense);
    OccupantSnoc(senses, sense, |senses|, p);
    LastOccupant(senses + [sense], p);
    NoOccupantBeyond(senses, p);
  }

  lemma LastSlot(senses: seq<nat>, sense: nat)
    requires sense > 0
    ensures Slot(senses + [sense], |senses|) == if Zeros(senses) == 0 then sense - 1 else sense
  {
    assert (senses + [sense])[..|senses|] == senses;
  }

  lemma LastSteps(senses: seq<nat>)
    requires senses != []
    ensures var n := |senses| - 1;
      var before, slot := LengthBelow(senses, n), Slot(senses, n);
      LengthBelow(senses, n + 1) == if slot >= before then slot + 1 else before
  {
  }

  lemma LastOccupant(senses: seq<nat>, p: nat)
    requires senses != []
    ensures var n := |senses| - 1;
      OccupantBelow(senses, n + 1, p) == if Slot(senses, n) == p then Some(n) else OccupantBelow(senses, n, p)
  {
  }

  lemma NoOccupantBeyond(senses: seq<nat>, p: nat)
    ensures p >= LengthBelow(senses, |senses|) ==> Occupant(senses, p) == None
  {
  }

  // order_ordainak. A negative sense would index the vector out of bounds.
  method OrderOrdainak(ordainak: seq<string>, ghost senses: seq<nat>) returns (ordered: seq<string>)
    requires |senses| == |ordainak| && forall i :: 0 <= i < |ordainak| ==> SenseOf(ordainak[i]) == senses[i]
    ensures ordered == Ordered(ordainak, senses)
  {
    hide Ordered, SenseOf;
    ordered := [];
    var zeroSense := false;
    assert ordainak[..0] == [] && senses[..0] == [];
    NothingOrdered();
    for n := 0 to |ordainak|
      invariant ordered == Ordered(ordainak[..n], senses[..n])
      invariant zeroSense <==> Zeros(senses[..n]) > 0
    {
      var sense := SenseOf(ordainak[n]);
      assert ordainak[..n + 1] == ordainak[..n] + [ordainak[n]];
      assert senses[..n + 1] == senses[..n] + [senses[n]] && senses[..n + 1][..n] == senses[..n];
      if sense == 0 {
        FrontStep(ordainak[..n], senses[..n], ordainak[n]);
        zeroSense := true;
        ordered := [ordainak[n]] + ordered;
      } else {
        PlaceStep(ordainak[..n], senses[..n], ordainak[n], senses[n]);
        if !zeroSense {
          sense := sense - 1;
        }
        if |ordered| < sense + 1 {
          ordered := Resized(ordered, sense + 1);
        }
        ordered := ordered[sense := ordainak[n]];
      }
    }
    assert ordainak[..|ordainak|] == ordainak && senses[..|senses|] == senses;
  }

  lemma NothingOrdered()
    ensures Ordered([], []) == []
  {
  }

  // ---- What the result means. ----

  ghost predicate Distinct(senses: seq<nat>)
  {
    forall i, j :: 0 <= i < j < |senses| ==> senses[i] != senses[j]
  }

  // An entry survives exactly when no later entry is put in its slot.
  lemma SurvivesIffLast(entries: seq<string>, senses: seq<nat>, i: nat)
    requires |entries| == |senses| && i < |senses|
    ensures Slot(senses, i) < |Ordered(entries, senses)|
    ensures Occupant(senses, Slot(senses, i)) == Some(i) <==>
      forall j: nat :: i < j < |senses| ==> Slot(senses, j) != Slot(senses, i)
    ensures Occupant(senses, Slot(senses, i)) == Some(i) ==>
      Ordered(entries, senses)[Slot(senses, i)] == entries[i]
  {
    OccupantIsLast(senses, i);
    SlotIsBelow(senses, i);
    hide Slot, OccupantBelow, LengthBelow;
  }

  lemma SlotIsBelow(senses: seq<nat>, i: nat)
    requires i < |senses|
    ensures Slot(senses, i) < LengthBelow(senses, |senses|)
  {
    hide Slot;
  }

  lemma OccupantIsLast(senses: seq<nat>, i: nat)
    requires i < |senses|
    ensures Occupant(senses, Slot(senses, i)) == Some(i) <==>
      forall j: nat :: i < j < |senses| ==> Slot(senses, j) != Slot(senses, i)
  {
    hide Slot;
    var k := OccupantBelow(senses, |senses|, Slot(senses, i));
    assert k.Some? && i <= k.value;
    if i < k.value {
      assert Slot(senses, k.value) == Slot(senses, i);
    } else {
      forall j: nat | i < j < |senses|
        ensures Slot(senses, j) != Slot(senses, i)
      {
        if Slot(senses, j) == Slot(senses, i) {
          assert false;
        }
      }
    }
  }

  lemma {:induction false} NoZeros(senses: seq<nat>)
    ensures Zeros(senses) == 0 <==> 0 !in senses
  {
    if senses == [] {
    } else {
      NoZeros(senses[..|senses| - 1]);
      assert senses == senses[..|senses| - 1] + [senses[|senses| - 1]];
    }
  }

  // With distinct senses the slot is the sense, or the sense less one when no entry has sense 0: it
  // does not depend on the order of the input.
  lemma {:induction false} DistinctSlot(senses: seq<nat>, i: nat)
    requires i < |senses| && Distinct(senses)
    ensures Slot(senses, i) == if 0 in senses then senses[i] else senses[i] - 1
  {
    var n := |senses| - 1;
    var before := senses[..n];
    assert senses == before + [senses[n]];
    if i == n {
      assert senses[..i] == before;
      NoZeros(before);
    } else {
      DistinctSlot(before, i);
      assert senses[i] == before[i];
    }
  }

  // The first index of the result: 0 when some entry has sense 0, and otherwise sense 1 comes first.
  function Base(senses: seq<nat>): nat
  {
    if 0 in senses then 0 else 1
  }

  ghost predicate IsIndexed(entries: seq<string>, senses: seq<nat>, ordered: seq<string>)
    requires |entries| == |senses|
  {
    && (forall i :: 0 <= i < |senses| ==> Base(senses) <= senses[i] < |ordered| + Base(senses))
    && (forall i :: 0 <= i < |senses| ==> ordered[senses[i] - Base(senses)] == entries[i])
    && (forall p :: 0 <= p < |ordered| && (p + Base(senses)) !in senses ==> ordered[p] == "")
    && (if senses == [] then ordered == [] else ordered != [] && |ordered| - 1 + Base(senses) in senses)
  }

  // So with distinct senses nothing is lost, every entry is where its sense says, and all other slots
  // are blank.
  lemma DistinctSensesAreIndexes(entries: seq<string>, senses: seq<nat>)
    requires |entries| == |senses| && Distinct(senses)
    ensures IsIndexed(entries, senses, Ordered(entries, senses))
  {
    hide Ordered, Slot, Occupant, Distinct;
    var ordered := Ordered(entries, senses);
    forall i: nat | i < |senses|
      ensures Base(senses) <= senses[i] < |ordered| + Base(senses) && ordered[senses[i] - Base(senses)] == entries[i]
    {
      DistinctEntry(entries, senses, i);
    }
    forall p: nat | p < |ordered| && (p + Base(senses)) !in senses
      ensures ordered[p] == ""
    {
      DistinctBlank(entries, senses, p);
    }
    DistinctLength(entries, senses);
  }

  lemma DistinctEntry(entries: seq<string>, senses: seq<nat>, i: nat)
    requires |entries| == |senses| && Distinct(senses) && i < |senses|
    ensures Base(senses) <= senses[i] < |Ordered(entries, senses)| + Base(senses)
    ensures Ordered(entries, senses)[senses[i] - Base(senses)] == entries[i]
  {
    SurvivesIffLast(entries, senses, i);
    hide Ordered, Slot, Occupant;
    DistinctSlot(senses, i);
    forall j: nat | i < j < |senses|
      ensures Slot(senses, j) != Slot(senses, i)
    {
      DistinctSlot(senses, j);
    }
  }

  lemma DistinctBlank(entries: seq<string>, senses: seq<nat>, p: nat)
    requires |entries| == |senses| && Distinct(senses)
    requires p < |Ordered(entries, senses)| && (p + Base(senses)) !in senses
    ensures Ordered(entries, senses)[p] == ""
  {
    var i := Occupant(senses, p);
    if i.Some? {
      DistinctSlot(senses, i.value);
    }
  }

  lemma DistinctLength(entries: seq<string>, senses: seq<nat>)
    requires |entries| == |senses| && Distinct(senses)
    ensures var ordered := Ordered(entries, senses);
      if senses == [] then ordered == [] else ordered != [] && |ordered| - 1 + Base(senses) in senses
  {
    if senses != [] {
      var length := LengthBelow(senses, |senses|);
      var i: nat :| i < |senses| && Slot(senses, i) == length - 1;
      DistinctSlot(senses, i);
      assert senses[i] in senses;
    }
  }

  // Input order does not matter when the senses are distinct: two inputs with the same senses and the
  // same entry for each of them give the same vector.
  lemma OrderIrrelevant(es: seq<string>, ss: seq<nat>, es': seq<string>, ss': seq<nat>)
    requires |es| == |ss| && |es'| == |ss'| && Distinct(ss) && Distinct(ss')
    requires SameEntries(es, ss, es', ss')
    ensures Ordered(es, ss) == Ordered(es', ss')
  {
    hide Ordered, Distinct;
    DistinctSensesAreIndexes(es, ss);
    DistinctSensesAreIndexes(es', ss');
    IndexedOnce(es, ss, Ordered(es, ss), es', ss', Ordered(es', ss'));
  }

  ghost predicate SameEntries(es: seq<string>, ss: seq<nat>, es': seq<string>, ss': seq<nat>)
    requires |es| == |ss| && |es'| == |ss'|
  {
    && (forall x :: x in ss <==> x in ss')
    && (forall i, j :: 0 <= i < |ss| && 0 <= j < |ss'| && ss[i] == ss'[j] ==> es[i] == es'[j])
  }

  lemma IndexedOnce(es: seq<string>, ss: seq<nat>, a: seq<string>, es': seq<string>, ss': seq<nat>, b: seq<string>)
    requires |es| == |ss| && |es'| == |ss'| && SameEntries(es, ss, es', ss')
    requires IsIndexed(es, ss, a) && IsIndexed(es', ss', b)
    ensures a == b
  {
    IndexedLength(es, ss, a, es', ss', b);
    IndexedLength(es', ss', b, es, ss, a);
    forall p | 0 <= p < |a|
      ensures a[p] == b[p]
    {
      IndexedAt(es, ss, a, es', ss', b, p);
    }
  }

  lemma IndexedLength(es: seq<string>, ss: seq<nat>, a: seq<string>, es': seq<string>, ss': seq<nat>, b: seq<string>)
    requires |es| == |ss| && |es'| == |ss'| && SameEntries(es, ss, es', ss')
    requires IsIndexed(es, ss, a) && IsIndexed(es', ss', b)
    ensures |a| <= |b| && SameEntries(es', ss', es, ss)
  {
    if ss != [] {
      var i :| 0 <= i < |ss| && ss[i] == |a| - 1 + Base(ss);
      assert ss[i] in ss';
      var j :| 0 <= j < |ss'| && ss'[j] == ss[i];
    }
  }

  lemma IndexedAt(es: seq<string>, ss: seq<nat>, a: seq<string>, es': seq<string>, ss': seq<nat>, b: seq<string>,
                  p: nat)
    requires |es| == |ss| && |es'| == |ss'| && SameEntries(es, ss, es', ss')
    requires IsIndexed(es, ss, a) && IsIndexed(es', ss', b)
    requires p < |a| && p < |b|
    ensures a[p] == b[p]
  {
    var base := Base(ss);
    assert base == Base(ss');
    hide Base;
    if p + base in ss {
      var i :| 0 <= i < |ss| && ss[i] == p + base;
      var j :| 0 <= j < |ss'| && ss'[j] == p + base;
      assert a[ss[i] - base] == es[i] && b[ss'[j] - base] == es'[j];
    } else {
      assert (p + base) !in ss';
    }
  }

  function Reverse(entries: seq<string>): seq<string>
  {
    if entries == [] then [] else [entries[|entries| - 1]] + Reverse(entries[..|entries| - 1])
  }

  // When every sense is 0 the input is reversed.
  lemma {:induction false} AllZeroReverses(entries: seq<string>, senses: seq<nat>)
    requires |entries| == |senses| && forall i :: 0 <= i < |senses| ==> senses[i] == 0
    ensures Ordered(entries, senses) == Reverse(entries)
  {
    if entries == [] {
    } else {
      var n := |entries| - 1;
      AllZeroReverses(entries[..n], senses[..n]);
      assert entries == entries[..n] + [entries[n]] && senses == senses[..n] + [0];
      FrontStep(entries[..n], senses[..n], entries[n]);
    }
  }

  // ---- When nothing is lost, in terms of the senses. ----

  // How far the entries of sense 0 up to entry k push it to the front.
  function Seen(senses: seq<nat>, k: nat): nat
    requires k < |senses|
  {
    var zeros := Zeros(senses[..k + 1]);
    if zeros == 0 then 1 else zeros
  }

  // The sense less that.
  function Key(senses: seq<nat>, k: nat): int
    requires k < |senses|
  {
    senses[k] - Seen(senses, k)
  }

  lemma {:induction false} SlotIsKey(senses: seq<nat>, k: nat)
    requires k < |senses|
    ensures Slot(senses, k) == Zeros(senses) + Key(senses, k)
    decreases |senses|
  {
    var n := |senses| - 1;
    var before := senses[..n];
    assert senses[..n + 1] == senses;
    if k == n {
    } else {
      SlotIsKey(before, k);
      assert before[..k + 1] == senses[..k + 1] && before[k] == senses[k];
    }
  }

  ghost predicate DistinctKeys(senses: seq<nat>)
  {
    forall i, j :: 0 <= i < j < |senses| ==> Key(senses, i) != Key(senses, j)
  }

  ghost predicate Survives(senses: seq<nat>, i: nat)
    requires i < |senses|
  {
    Occupant(senses, Slot(senses, i)) == Some(i)
  }

  // Every entry is in the result, each at a slot of its own, exactly when the keys are distinct.
  lemma AllSurviveIff(senses: seq<nat>)
    ensures (forall i: nat :: i < |senses| ==> Survives(senses, i)) <==> DistinctKeys(senses)
  {
    hide Slot, Key, Occupant;
    forall i: nat | i < |senses|
      ensures Slot(senses, i) == Zeros(senses) + Key(senses, i)
      ensures Survives(senses, i) <==> forall j: nat :: i < j < |senses| ==> Slot(senses, j) != Slot(senses, i)
    {
      SlotIsKey(senses, i);
      OccupantIsLast(senses, i);
    }
    if DistinctKeys(senses) {
      forall i: nat | i < |senses|
        ensures Survives(senses, i)
      {
        assert forall j: nat :: i < j < |senses| ==> Key(senses, j) != Key(senses, i);
      }
    }
    if forall i: nat :: i < |senses| ==> Survives(senses, i) {
      forall i, j | 0 <= i < j < |senses|
        ensures Key(senses, i) != Key(senses, j)
      {
        assert Survives(senses, i);
      }
    }
  }

  // ---- The same of the result itself. ----

  function NonBlank(list: seq<string>): seq<string>
  {
    if list == [] then []
    else if list[0] == "" then NonBlank(list[1..])
    else [list[0]] + NonBlank(list[1..])
  }

  lemma {:induction false} NonBlankAppend(us: seq<string>, vs: seq<string>)
    ensures NonBlank(us + vs) == NonBlank(us) + NonBlank(vs)
  {
    if us == [] {
      assert us + vs == vs;
    } else {
      assert (us + vs)[1..] == us[1..] + vs;
      NonBlankAppend(us[1..], vs);
    }
  }

  lemma {:induction false} NonBlankBlanks(n: nat)
    ensures NonBlank(seq(n, i => "")) == []
  {
    if n == 0 {
    } else {
      assert seq(n, i => "")[1..] == seq(n - 1, i => "");
      NonBlankBlanks(n - 1);
    }
  }

  // Assigning a slot adds the entry and takes away what was in it.
  lemma NonBlankAssigned(list: seq<string>, index: nat, entry: string)
    requires entry != ""
    ensures var was := if index < |list| then list[index] else "";
      multiset(NonBlank(Assigned(list, index, entry))) + multiset(NonBlank([was]))
      == multiset(NonBlank(list)) + multiset{entry}
  {
    hide NonBlank;
    var resized := Resized(list, index + 1);
    NonBlankResized(list, index + 1);
    var was := if index < |list| then list[index] else "";
    assert resized[index] == was;
    var before, behind := resized[..index], resized[index + 1..];
    Rebuilt(resized, index, entry);
    NonBlankThree(before, was, behind);
    NonBlankThree(before, entry, behind);
  }

  lemma Rebuilt(list: seq<string>, index: nat, entry: string)
    requires index < |list|
    ensures list == list[..index] + [list[index]] + list[index + 1..]
    ensures list[index := entry] == list[..index] + [entry] + list[index + 1..]
  {
  }

  lemma NonBlankResized(list: seq<string>, size: nat)
    ensures NonBlank(Resized(list, size)) == NonBlank(list)
  {
    hide NonBlank;
    if |list| < size {
      NonBlankBlanks(size - |list|);
      NonBlankAppend(list, seq(size - |list|, i => ""));
      assert NonBlank(list) + [] == NonBlank(list);
    }
  }

  lemma NonBlankThree(us: seq<string>, entry: string, vs: seq<string>)
    ensures multiset(NonBlank(us + [entry] + vs))
      == multiset(NonBlank(us)) + multiset(NonBlank([entry])) + multiset(NonBlank(vs))
    ensures entry != "" ==> multiset(NonBlank([entry])) == multiset{entry}
  {
    NonBlankAppend(us + [entry], vs);
    NonBlankAppend(us, [entry]);
  }

  ghost predicate NoBlanks(entries: seq<string>)
  {
    forall i :: 0 <= i < |entries| ==> entries[i] != ""
  }

  ghost predicate DistinctSlots(senses: seq<nat>)
  {
    forall i, j :: 0 <= i < j < |senses| ==> Slot(senses, i) != Slot(senses, j)
  }

  lemma DistinctSlotsSnoc(senses: seq<nat>, sense: nat)
    ensures DistinctSlots(senses + [sense]) <==>
      DistinctSlots(senses) && forall i: nat :: i < |senses| ==>
        Slot(senses, i) + (if sense == 0 then 1 else 0) != Slot(senses + [sense], |senses|)
  {
    hide Slot;
    var n := |senses|;
    forall i: nat | i < n
      ensures Slot(senses + [sense], i) == Slot(senses, i) + (if sense == 0 then 1 else 0)
    {
      SlotSnoc(senses, sense, i);
    }
    if DistinctSlots(senses + [sense]) {
      forall i, j | 0 <= i < j < n
        ensures Slot(senses, i) != Slot(senses, j)
      {
        assert Slot(senses + [sense], i) != Slot(senses + [sense], j);
      }
      forall i: nat | i < n
        ensures Slot(senses, i) + (if sense == 0 then 1 else 0) != Slot(senses + [sense], n)
      {
        assert Slot(senses + [sense], i) != Slot(senses + [sense], n);
      }
    } else {
      var i, j :| 0 <= i < j < |senses + [sense]| && Slot(senses + [sense], i) == Slot(senses + [sense], j);
      SlotSnoc(senses, sense, i);
      if j < n {
        SlotSnoc(senses, sense, j);
        assert Slot(senses, i) == Slot(senses, j);
        assert !DistinctSlots(senses);
      } else {
        assert Slot(senses, i) + (if sense == 0 then 1 else 0) == Slot(senses + [sense], n);
      }
    }
  }

  // A slot is blank when no entry has it.
  lemma SlotIsBlankIff(entries: seq<string>, senses: seq<nat>, p: nat)
    requires |entries| == |senses| && NoBlanks(entries)
    ensures p < |Ordered(entries, senses)| && Ordered(entries, senses)[p] != "" <==>
      exists i: nat :: i < |senses| && Slot(senses, i) == p
  {
    hide Slot;
    if i: nat :| i < |senses| && Slot(senses, i) == p {
      SlotIsBelow(senses, i);
      assert Occupant(senses, p).Some?;
    }
  }

  // The result holds no more than the entries, and just the entries exactly when no two have one slot.
  lemma {:induction false} NonBlankOrdered(entries: seq<string>, senses: seq<nat>)
    requires |entries| == |senses| && NoBlanks(entries)
    ensures |NonBlank(Ordered(entries, senses))| <= |entries|
    ensures multiset(NonBlank(Ordered(entries, senses))) == multiset(entries) <==> DistinctSlots(senses)
  {
    if entries == [] {
      NothingOrdered();
    } else {
      hide Ordered, NonBlank, DistinctSlots, Slot;
      var n := |entries| - 1;
      NonBlankOrdered(entries[..n], senses[..n]);
      assert entries == entries[..n] + [entries[n]] && senses == senses[..n] + [senses[n]];
      OrderedSnoc(entries[..n], senses[..n], entries[n], senses[n]);
    }
  }

  lemma OrderedSnoc(entries: seq<string>, senses: seq<nat>, entry: string, sense: nat)
    requires |entries| == |senses| && NoBlanks(entries) && entry != ""
    requires var now := NonBlank(Ordered(entries, senses));
      |now| <= |entries| && (multiset(now) == multiset(entries) <==> DistinctSlots(senses))
    ensures var after := NonBlank(Ordered(entries + [entry], senses + [sense]));
      && |after| <= |entries| + 1
      && (multiset(after) == multiset(entries + [entry]) <==> DistinctSlots(senses + [sense]))
  {
    hide Ordered, NonBlank, DistinctSlots, Slot, Assigned, NoBlanks;
    var before := Ordered(entries, senses);
    DistinctSlotsSnoc(senses, sense);
    if sense == 0 {
      FrontStep(entries, senses, entry);
      FrontSlot(senses);
      NonBlankAppend([entry], before);
      NonBlankOne(entry);
      SetsGrow(NonBlank(before), [entry] + NonBlank(before), entries, entry);
    } else {
      var index := if Zeros(senses) == 0 then sense - 1 else sense;
      PlaceStep(entries, senses, entry, sense);
      LastSlot(senses, sense);
      SlotIsBlankIff(entries, senses, index);
      NonBlankAssigned(before, index, entry);
      var was := if index < |before| then before[index] else "";
      var after := NonBlank(Assigned(before, index, entry));
      NonBlankOne(was);
      if was == "" {
        SetsGrow(NonBlank(before), after, entries, entry);
      } else {
        SetsStay(NonBlank(before), after, entry, was);
        if multiset(after) == multiset(entries + [entry]) {
          SameSize(after, entries + [entry]);
        }
      }
    }
  }

  lemma FrontSlot(senses: seq<nat>)
    ensures Slot(senses + [0], |senses|) == 0
  {
  }

  lemma NonBlankOne(entry: string)
    ensures NonBlank([entry]) == if entry == "" then [] else [entry]
  {
    assert [entry][1..] == [];
  }

  lemma SameSize(us: seq<string>, vs: seq<string>)
    requires multiset(us) == multiset(vs)
    ensures |us| == |vs|
  {
    assert |multiset(us)| == |us| && |multiset(vs)| == |vs|;
  }

  // One more entry in the result.
  lemma SetsGrow(now: seq<string>, after: seq<string>, entries: seq<string>, entry: string)
    requires multiset(after) == multiset(now) + multiset{entry}
    ensures |after| == |now| + 1
    ensures multiset(after) == multiset(entries + [entry]) <==> multiset(now) == multiset(entries)
  {
    SameSize(after, now + [entry]);
    assert multiset(now) == multiset(after) - multiset{entry};
    assert multiset(entries) == multiset(entries + [entry]) - multiset{entry};
  }

  // One entry instead of another.
  lemma SetsStay(now: seq<string>, after: seq<string>, entry: string, was: string)
    requires multiset(after) + multiset{was} == multiset(now) + multiset{entry}
    ensures |after| == |now|
  {
    SameSize(after + [was], now + [entry]);
  }

  // So with distinct keys the result is the entries and blanks, and otherwise an entry is missing from it.
  lemma NothingIsLostIff(entries: seq<string>, senses: seq<nat>)
    requires |entries| == |senses| && NoBlanks(entries)
    ensures multiset(NonBlank(Ordered(entries, senses))) == multiset(entries) <==> DistinctKeys(senses)
  {
    NonBlankOrdered(entries, senses);
    hide Ordered, NonBlank, Slot, Key;
    forall i: nat | i < |senses|
      ensures Slot(senses, i) == Zeros(senses) + Key(senses, i)
    {
      SlotIsKey(senses, i);
    }
  }

  // Two entries of sense 0 and one of sense 1: behind them it takes the slot of the first, and in front of
  // them nothing is lost.
  lemma OneBehindTwoZeros(a: string, b: string, c: string)
    ensures Ordered([a, b, c], [0, 0, 1]) == [b, c]
  {
    hide Ordered, Assigned;
    var one: seq<nat>, two: seq<nat> := [0], [0, 0];
    assert [] + [0] == one && one + [0] == two && two + [1] == [0, 0, 1];
    assert [] + [a] == [a] && [a] + [b] == [a, b] && [a, b] + [c] == [a, b, c];
    assert two[..1] == one && one[..0] == [] && Zeros(one) == 1 && Zeros(two) == 2;
    NothingOrdered();
    FrontStep([], [], a);
    FrontStep([a], one, b);
    assert [a] + [] == [a] && [b] + [a] == [b, a];
    PlaceStep([a, b], two, c, 1);
    AssignedAt([b, a], 1, c);
  }

  lemma OneBeforeTwoZeros(a: string, b: string, c: string)
    ensures Ordered([a, b, c], [1, 0, 0]) == [c, b, a]
  {
    hide Ordered, Assigned;
    var one: seq<nat>, two: seq<nat> := [1], [1, 0];
    assert [] + [1] == one && one + [0] == two && two + [0] == [1, 0, 0];
    assert [] + [a] == [a] && [a] + [b] == [a, b] && [a, b] + [c] == [a, b, c];
    NothingOrdered();
    PlaceStep([], [], a, 1);
    AssignedAt([], 0, a);
    FrontStep([a], one, b);
    FrontStep([a, b], two, c);
  }
}
