// The split loop of disambiguate (squoia_xfer_lex.cc): a dictionary result is cut at the slashes that
// are not escaped, erasing the escaping backslashes from the string while it is scanned.
module Alternatives {

  // ---- What the loop computes: cur is the scanned part of the current alternative. ----

  function Scan(cur: string, rest: string): seq<string>
    decreases |rest|, 0
  {
    if rest == "" then [cur]
    else if rest[0] == '/' then [cur] + AfterSlash(rest[1..])
    else if rest[0] == '\\' then
      if |rest| == 1 then [cur] else Scan(cur + [rest[1]], rest[2..])
    else Scan(cur + [rest[0]], rest[1..])
  }

  // Right after a slash the index is set to 0 and then incremented: the first character, or the one
  // behind an escape, is taken as it is.
  function AfterSlash(rest: string): seq<string>
    decreases |rest|, 1
  {
    if rest == "" then [""]
    else if rest[0] == '\\' then
      if |rest| == 1 then [""] else Scan([rest[1]], rest[2..])
    else Scan([rest[0]], rest[1..])
  }

  // What is left to do at index i, which may have run one past the end.
  ghost function Remaining(output: string, i: nat): seq<string>
  {
    if i <= |output| then Scan(output[..i], output[i..]) else [output]
  }

  method SplitAlternatives(full: string) returns (ordainak: seq<string>)
    ensures ordainak == Scan("", full)
  {
    hide Remaining;
    var output := full;
    var i := 0;
    ordainak := [];
    RemainingStarts(full);
    while i < |output|
      invariant 0 <= i <= |output| + 1
      invariant ordainak + Remaining(output, i) == Scan("", full)
      decreases |output| - i
    {
      RemainingStep(output, i);
      if output[i] == '/' {
        ordainak := ordainak + [output[..i]];
        output := output[i + 1..];
        i := 0;
      }
      if i < |output| && output[i] == '\\' {
        output := output[..i] + output[i + 1..];
      }
      i := i + 1;
    }
    RemainingEnds(output, i);
    ordainak := ordainak + [output];
  }

  lemma RemainingStarts(full: string)
    ensures [] + Remaining(full, 0) == Scan("", full)
  {
    assert full[0..] == full;
  }

  lemma RemainingEnds(output: string, i: nat)
    requires |output| <= i <= |output| + 1
    ensures Remaining(output, i) == [output]
  {
    if i == |output| {
      assert output[..i] == output;
    }
  }

  function Erased(output: string, i: nat): string
  {
    if i < |output| && output[i] == '\\' then output[..i] + output[i + 1..] else output
  }

  lemma RemainingStep(output: string, i: nat)
    requires i < |output|
    ensures if output[i] == '/' then
        Remaining(output, i) == [output[..i]] + Remaining(Erased(output[i + 1..], 0), 1)
      else
        Remaining(output, i) == Remaining(Erased(output, i), i + 1)
  {
    var cur, rest := output[..i], output[i..];
    if output[i] == '/' {
      assert rest[1..] == output[i + 1..];
      AfterSlashStep(rest[1..]);
    } else {
      ScanStep(cur, rest);
      assert output == cur + rest;
    }
  }

  lemma ScanStep(cur: string, rest: string)
    requires rest != "" && rest[0] != '/'
    ensures Scan(cur, rest) == Remaining(Erased(cur + rest, |cur|), |cur| + 1)
  {
    var output := cur + rest;
    var erased := Erased(output, |cur|);
    if rest[0] == '\\' {
      assert erased == cur + rest[1..];
      if |rest| > 1 {
        assert erased[..|cur| + 1] == cur + [rest[1]] && erased[|cur| + 1..] == rest[2..];
      } else {
        assert erased == cur;
      }
    } else {
      assert erased[..|cur| + 1] == cur + [rest[0]] && erased[|cur| + 1..] == rest[1..];
    }
  }

  lemma AfterSlashStep(rest: string)
    ensures AfterSlash(rest) == Remaining(Erased(rest, 0), 1)
  {
    var erased := Erased(rest, 0);
    if rest != "" {
      if rest[0] == '\\' {
        assert erased == rest[1..];
        if |rest| > 1 {
          assert erased[..1] == [rest[1]] && erased[1..] == rest[2..];
        }
      } else {
        assert erased[..1] == [rest[0]];
      }
    }
  }

  // ---- Escaping. ----

  function EscapedChar(c: char): string
  {
    if c == '/' || c == '\\' then ['\\', c] else [c]
  }

  function Escaped(s: string): string
  {
    if s == "" then "" else EscapedChar(s[0]) + Escaped(s[1..])
  }

  // Alternatives joined by slashes.
  function Joined(alternatives: seq<string>): string
    requires alternatives != []
  {
    if |alternatives| == 1 then Escaped(alternatives[0])
    else Escaped(alternatives[0]) + "/" + Joined(alternatives[1..])
  }

  lemma {:induction false} ScanEscaped(cur: string, s: string, rest: string)
    ensures Scan(cur, Escaped(s) + rest) == Scan(cur + s, rest)
    decreases |s|
  {
    hide Scan;
    if s == "" {
      assert Escaped(s) + rest == rest && cur + s == cur;
    } else {
      var tail := Escaped(s[1..]) + rest;
      assert Escaped(s) + rest == EscapedChar(s[0]) + tail;
      ScanEscapedChar(cur, s[0], tail);
      ScanEscaped(cur + [s[0]], s[1..], rest);
      assert cur + [s[0]] + s[1..] == cur + s;
    }
  }

  lemma ScanEscapedChar(cur: string, c: char, rest: string)
    ensures Scan(cur, EscapedChar(c) + rest) == Scan(cur + [c], rest)
  {
    var all := EscapedChar(c) + rest;
    if c == '/' || c == '\\' {
      assert all[0] == '\\' && all[1] == c && all[2..] == rest;
    } else {
      assert all[0] == c && all[1..] == rest;
    }
  }

  lemma AfterSlashEscaped(s: string, rest: string)
    requires s != ""
    ensures AfterSlash(Escaped(s) + rest) == Scan(s, rest)
  {
    hide Scan;
    var tail := Escaped(s[1..]) + rest;
    var all := Escaped(s) + rest;
    assert all == EscapedChar(s[0]) + tail;
    assert s[0] == '/' || s[0] == '\\' ==> all[0] == '\\' && all[1] == s[0] && all[2..] == tail;
    assert s[0] != '/' && s[0] != '\\' ==> all[0] == s[0] && all[1..] == tail;
    ScanEscaped([s[0]], s[1..], rest);
    assert [s[0]] + s[1..] == s;
  }

  // The alternative being scanned only grows.
  lemma {:induction false} ScanKeepsStart(cur: string, rest: string)
    ensures Scan(cur, rest) != [] && cur <= Scan(cur, rest)[0]
    decreases |rest|
  {
    if rest != "" && rest[0] == '\\' && |rest| > 1 {
      ScanKeepsStart(cur + [rest[1]], rest[2..]);
    } else if rest != "" && rest[0] != '/' && rest[0] != '\\' {
      ScanKeepsStart(cur + [rest[0]], rest[1..]);
    }
  }

  lemma {:induction false} TailRecovered(alternatives: seq<string>)
    requires alternatives != []
    ensures AfterSlash(Joined(alternatives)) == alternatives <==>
      forall k :: 0 <= k < |alternatives| - 1 ==> alternatives[k] != ""
  {
    hide Scan, Escaped;
    var first, later := alternatives[0], alternatives[1..];
    assert alternatives == [first] + later;
    if later == [] {
      LastAlternative(first);
    } else {
      TailRecovered(later);
      assert forall k :: 0 <= k < |later| - 1 ==> later[k] == alternatives[k + 1];
      assert (forall k :: 0 <= k < |alternatives| - 1 ==> alternatives[k] != "") <==>
        first != "" && forall k :: 0 <= k < |later| - 1 ==> later[k] != "";
      MiddleAlternative(first, Joined(later));
      assert Escaped(first) + "/" + Joined(later) == Escaped(first) + ("/" + Joined(later));
    }
  }

  lemma LastAlternative(s: string)
    ensures AfterSlash(Escaped(s)) == [s]
  {
    if s != "" {
      AfterSlashEscaped(s, "");
      assert Escaped(s) + "" == Escaped(s);
    }
  }

  // An empty alternative behind a slash swallows the next slash.
  lemma MiddleAlternative(s: string, rest: string)
    ensures s != "" ==> AfterSlash(Escaped(s) + ("/" + rest)) == [s] + AfterSlash(rest)
    ensures s == "" ==> AfterSlash(Escaped(s) + ("/" + rest)) != [] && AfterSlash(Escaped(s) + ("/" + rest))[0] != ""
  {
    assert ("/" + rest)[1..] == rest;
    if s != "" {
      AfterSlashEscaped(s, "/" + rest);
    } else {
      assert Escaped(s) + ("/" + rest) == "/" + rest;
      ScanKeepsStart("/", rest);
    }
  }

  lemma FirstAlternative(first: string, later: seq<string>)
    ensures Scan("", Joined([first] + later)) == if later == [] then [first] else [first] + AfterSlash(Joined(later))
  {
    assert "" + first == first && ([first] + later)[1..] == later;
    if later == [] {
      ScanEscaped("", first, "");
      assert Escaped(first) + "" == Escaped(first);
    } else {
      var rest := "/" + Joined(later);
      hide Escaped;
      ScanEscaped("", first, rest);
      assert rest[1..] == Joined(later);
      assert Escaped(first) + "/" + Joined(later) == Escaped(first) + rest;
    }
  }

  // Splitting undoes escaping and joining exactly when every alternative but the first and the last
  // is non-empty.
  lemma SplitUndoesJoin(alternatives: seq<string>)
    requires alternatives != []
    ensures Scan("", Joined(alternatives)) == alternatives <==>
      forall k :: 1 <= k < |alternatives| - 1 ==> alternatives[k] != ""
  {
    var first, later := alternatives[0], alternatives[1..];
    assert alternatives == [first] + later;
    FirstAlternative(first, later);
    hide Scan, Escaped, AfterSlash, Joined;
    if later != [] {
      TailRecovered(later);
      assert forall k :: 0 <= k < |later| - 1 ==> later[k] == alternatives[k + 1];
      assert (forall k :: 1 <= k < |alternatives| - 1 ==> alternatives[k] != "") <==>
        forall k :: 0 <= k < |later| - 1 ==> later[k] != "";
    }
  }
}
