// Which sentences the MaltParser server serves, for every sequence of clients and whatever lines they
// send, and the static flag at every accept (MaltParserServer.java, MPClient.java).
module MaltConnections {
  import opened MaltServer

  predicate IsWord(line: string)
  {
    !IsBlank(line) && line != EOF
  }

  // ---- The blocks of an input: its maximal runs of word lines, trimmed. ----

  function Flushed(block: seq<string>): seq<seq<string>>
  {
    if block == [] then [] else [block]
  }

  // block is the run that is being read.
  function BlocksFrom(block: seq<string>, lines: seq<string>): seq<seq<string>>
    decreases |lines|
  {
    if lines == [] then Flushed(block)
    else if IsWord(lines[0]) then BlocksFrom(block + [Trim(lines[0])], lines[1..])
    else Flushed(block) + BlocksFrom([], lines[1..])
  }

  function Blocks(lines: seq<string>): seq<seq<string>>
  {
    BlocksFrom([], lines)
  }

  // A line that is no word separates blocks, and nothing else does.
  lemma {:induction false} BlocksSplit(block: seq<string>, us: seq<string>, line: string, vs: seq<string>)
    requires !IsWord(line)
    ensures BlocksFrom(block, us + [line] + vs) == BlocksFrom(block, us) + Blocks(vs)
    decreases |us|
  {
    var all := us + [line] + vs;
    if us == [] {
      assert all[1..] == vs;
    } else {
      hide IsWord, Trim;
      assert all[1..] == us[1..] + [line] + vs && all[0] == us[0];
      if IsWord(us[0]) {
        BlocksSplit(block + [Trim(us[0])], us[1..], line, vs);
      } else {
        BlocksSplit([], us[1..], line, vs);
      }
    }
  }

  lemma {:induction false} NoBlocksIff(block: seq<string>, lines: seq<string>)
    ensures BlocksFrom(block, lines) == [] <==> block == [] && forall i :: 0 <= i < |lines| ==> !IsWord(lines[i])
    decreases |lines|
  {
    hide IsWord, Trim;
    if lines == [] {
    } else {
      NoBlocksIff(if IsWord(lines[0]) then block + [Trim(lines[0])] else [], lines[1..]);
      assert forall i :: 0 < i < |lines| ==> lines[i] == lines[1..][i - 1];
      assert lines == [lines[0]] + lines[1..];
    }
  }

  // ---- One connection that finds the flag down. ----

  // Line by line: block is the sentence that is being read.
  function ServedFrom(block: seq<string>, lines: seq<string>): Service
    decreases |lines|
  {
    if lines == [] then Service(Flushed(block), false)
    else if IsWord(lines[0]) then ServedFrom(block + [Trim(lines[0])], lines[1..])
    else if lines[0] == EOF then Service(Flushed(block), block == [])
    else if block == [] then Service([], false)
    else
      var more := ServedFrom([], lines[1..]);
      Service([block] + more.served, more.eofReached)
  }

  lemma {:induction false} ServeLineByLine(block: seq<string>, lines: seq<string>)
    ensures var b := ReadBlock(lines);
      var tokens := block + b.tokens;
      ServedFrom(block, lines)
      == if tokens == [] then Service([], b.sawEof)
         else if b.sawEof then Service([tokens], false)
         else Service([tokens] + Serve(false, b.rest).served, Serve(false, b.rest).eofReached)
    decreases |lines|
  {
    hide IsBlank, Trim;
    EofIsNotBlank();
    if lines == [] {
      assert block + [] == block;
      assert Serve(false, []) == Service([], false);
    } else if IsWord(lines[0]) {
      ServeLineByLine(block + [Trim(lines[0])], lines[1..]);
      var later := ReadBlock(lines[1..]).tokens;
      assert block + [Trim(lines[0])] + later == block + ([Trim(lines[0])] + later);
    } else {
      assert block + [] == block;
      ServeLineByLine([], lines[1..]);
      assert [] + ReadBlock(lines[1..]).tokens == ReadBlock(lines[1..]).tokens;
      ServeIsServed(lines[1..]);
    }
  }

  lemma EofIsNotBlank()
    ensures !IsBlank(EOF) && IsBlank("") && !IsWord(EOF) && !IsWord("")
  {
    assert TrimLeft(EOF) == EOF && TrimRight(EOF) == EOF;
  }

  lemma ServeIsServed(lines: seq<string>)
    requires var b := ReadBlock(lines);
      ServedFrom([], lines)
      == if b.tokens == [] then Service([], b.sawEof)
         else if b.sawEof then Service([b.tokens], false)
         else Service([b.tokens] + Serve(false, b.rest).served, Serve(false, b.rest).eofReached)
    ensures Serve(false, lines) == ServedFrom([], lines)
  {
  }

  // The server stops reading at the marker and at a blank line where a sentence should begin; inBlock says
  // whether a word came before the lines.
  predicate Stops(inBlock: bool, lines: seq<string>, j: nat)
    requires j < |lines|
  {
    lines[j] == EOF || (IsBlank(lines[j]) && !(if j == 0 then inBlock else IsWord(lines[j - 1])))
  }

  function FirstStop(inBlock: bool, lines: seq<string>): (p: nat)
    ensures p <= |lines|
    decreases |lines|
  {
    if lines == [] then 0
    else if IsWord(lines[0]) then 1 + FirstStop(true, lines[1..])
    else if lines[0] != EOF && inBlock then 1 + FirstStop(false, lines[1..])
    else 0
  }

  lemma {:induction false} StopIsFirst(inBlock: bool, lines: seq<string>)
    ensures var p := FirstStop(inBlock, lines);
      && (forall j: nat :: j < p ==> !Stops(inBlock, lines, j))
      && (p < |lines| ==> Stops(inBlock, lines, p) && !IsWord(lines[p]))
    decreases |lines|
  {
    hide IsBlank;
    EofIsNotBlank();
    if lines == [] {
    } else if IsWord(lines[0]) || (lines[0] != EOF && inBlock) {
      var word := IsWord(lines[0]);
      StopIsFirst(word, lines[1..]);
      forall j: nat | 0 < j < |lines|
        ensures Stops(inBlock, lines, j) <==> Stops(word, lines[1..], j - 1)
      {
      }
    }
  }

  ghost predicate FlagUpAt(block: seq<string>, lines: seq<string>, p: nat)
    requires p <= |lines|
  {
    p < |lines| && lines[p] == EOF && if p == 0 then block == [] else !IsWord(lines[p - 1])
  }

  lemma {:induction false} ServedUpToStop(block: seq<string>, lines: seq<string>)
    ensures var p := FirstStop(block != [], lines);
      ServedFrom(block, lines) == Service(BlocksFrom(block, lines[..p]), FlagUpAt(block, lines, p))
    decreases |lines|
  {
    hide IsBlank, Trim;
    EofIsNotBlank();
    var p := FirstStop(block != [], lines);
    if p == 0 {
      assert lines[..p] == [];
    } else {
      assert lines[..p][0] == lines[0] && lines[..p][1..] == lines[1..][..p - 1];
      ServedUpToStop(if IsWord(lines[0]) then block + [Trim(lines[0])] else [], lines[1..]);
    }
  }

  // With the flag down the server serves the blocks of the lines before its first stop, and the flag is
  // up afterwards exactly when it stopped at a marker that ends no block.
  lemma ServedFlagDown(lines: seq<string>)
    ensures var p := FirstStop(false, lines);
      Serve(false, lines) == Service(Blocks(lines[..p]), FlagUpAt([], lines, p))
  {
    hide ServedFrom, ReadBlock, BlocksFrom;
    ServeLineByLine([], lines);
    assert [] + ReadBlock(lines).tokens == ReadBlock(lines).tokens;
    ServeIsServed(lines);
    ServedUpToStop([], lines);
  }

  // What a caller can see in the input: every word line but the first follows a word line or, with the flag
  // down, a single blank line behind a word line.
  ghost predicate Spaced(eofReached: bool, lines: seq<string>)
  {
    forall i: nat :: 0 < i < |lines| && IsWord(lines[i]) ==> Follows(eofReached, lines, i)
  }

  ghost predicate Follows(eofReached: bool, lines: seq<string>, i: nat)
    requires 0 < i < |lines|
  {
    IsWord(lines[i - 1]) || (!eofReached && IsBlank(lines[i - 1]) && i >= 2 && IsWord(lines[i - 2]))
  }

  lemma {:induction false} NoWordBehindStop(lines: seq<string>, i: nat)
    requires Spaced(false, lines) && FirstStop(false, lines) <= i < |lines|
    ensures !IsWord(lines[i])
  {
    hide IsBlank;
    var p := FirstStop(false, lines);
    StopIsFirst(false, lines);
    EofIsNotBlank();
    if i == p {
    } else if IsWord(lines[i]) {
      assert Follows(false, lines, i);
      NoWordBehindStop(lines, i - 1);
      if i - 1 > p {
        NoWordBehindStop(lines, i - 2);
      }
      assert false;
    }
  }

  lemma WordsBehindStopIff(lines: seq<string>)
    ensures Spaced(false, lines) <==> forall i: nat :: FirstStop(false, lines) <= i < |lines| ==> !IsWord(lines[i])
  {
    hide IsBlank, FirstStop;
    var p := FirstStop(false, lines);
    StopIsFirst(false, lines);
    if Spaced(false, lines) {
      forall i: nat | p <= i < |lines|
        ensures !IsWord(lines[i])
      {
        NoWordBehindStop(lines, i);
      }
    }
    if forall i: nat :: p <= i < |lines| ==> !IsWord(lines[i]) {
      forall i: nat | 0 < i < |lines| && IsWord(lines[i])
        ensures Follows(false, lines, i)
      {
        assert !Stops(false, lines, i - 1);
      }
    }
  }

  // Every block is served exactly when the words are spaced in that way.
  lemma AllServedFlagDown(lines: seq<string>)
    ensures |Serve(false, lines).served| <= |Blocks(lines)|
    ensures Serve(false, lines).served == Blocks(lines) <==> Spaced(false, lines)
  {
    hide Serve, BlocksFrom, FirstStop, Spaced, IsWord;
    var p := FirstStop(false, lines);
    ServedFlagDown(lines);
    WordsBehindStopIff(lines);
    if p == |lines| {
      assert lines[..p] == lines;
    } else {
      StopIsFirst(false, lines);
      var before, behind := lines[..p], lines[p + 1..];
      assert lines == before + [lines[p]] + behind;
      BlocksSplit([], before, lines[p], behind);
      NoBlocksIff([], behind);
      assert forall i :: 0 <= i < |behind| ==> behind[i] == lines[p + 1 + i];
      assert forall i :: p < i < |lines| ==> lines[i] == behind[i - p - 1];
    }
  }

  // ---- One connection that finds the flag up: at most one block, at the very start. ----

  lemma {:induction false} FirstBlock(block: seq<string>, lines: seq<string>)
    ensures var tokens := block + ReadBlock(lines).tokens;
      tokens != [] && (block != [] || (lines != [] && IsWord(lines[0]))) ==>
        BlocksFrom(block, lines) != [] && BlocksFrom(block, lines)[0] == tokens
    decreases |lines|
  {
    hide IsBlank, Trim;
    EofIsNotBlank();
    if lines == [] || !IsWord(lines[0]) {
      assert block + [] == block;
    } else {
      FirstBlock(block + [Trim(lines[0])], lines[1..]);
      var later := ReadBlock(lines[1..]).tokens;
      assert block + [Trim(lines[0])] + later == block + ([Trim(lines[0])] + later);
    }
  }

  // The words are together at the start; inBlock says whether one came before the lines.
  ghost predicate Together(inBlock: bool, lines: seq<string>)
  {
    forall i: nat :: i < |lines| && IsWord(lines[i]) ==> Attached(inBlock, lines, i)
  }

  ghost predicate Attached(inBlock: bool, lines: seq<string>, i: nat)
    requires i < |lines|
  {
    if i == 0 then inBlock else IsWord(lines[i - 1])
  }

  lemma TogetherStep(inBlock: bool, lines: seq<string>)
    requires lines != []
    ensures Together(inBlock, lines) <==> (IsWord(lines[0]) ==> inBlock) && Together(IsWord(lines[0]), lines[1..])
  {
    hide IsWord;
    var word := IsWord(lines[0]);
    if Together(inBlock, lines) {
      forall i: nat | i < |lines[1..]| && IsWord(lines[1..][i])
        ensures Attached(word, lines[1..], i)
      {
        assert Attached(inBlock, lines, i + 1);
      }
      assert IsWord(lines[0]) ==> Attached(inBlock, lines, 0);
    }
    if Together(word, lines[1..]) {
      forall i: nat | 0 < i < |lines| && IsWord(lines[i])
        ensures Attached(inBlock, lines, i)
      {
        assert IsWord(lines[1..][i - 1]);
        assert Attached(word, lines[1..], i - 1);
      }
    }
  }

  lemma {:induction false} NoneTogether(lines: seq<string>)
    ensures Together(false, lines) <==> Blocks(lines) == []
  {
    hide IsWord, Together, Trim;
    if lines == [] {
      NothingTogether(false);
    } else {
      TogetherStep(false, lines);
      NoneTogether(lines[1..]);
      NoBlocksIff([], lines);
    }
  }

  lemma NothingTogether(inBlock: bool)
    ensures Together(inBlock, [])
  {
  }

  lemma {:induction false} OneBlockIff(block: seq<string>, lines: seq<string>)
    requires block != []
    ensures |BlocksFrom(block, lines)| >= 1
    ensures |BlocksFrom(block, lines)| == 1 <==> Together(true, lines)
    decreases |lines|
  {
    hide IsWord, Together, Trim;
    if lines == [] {
      NothingTogether(true);
    } else {
      TogetherStep(true, lines);
      if IsWord(lines[0]) {
        OneBlockIff(block + [Trim(lines[0])], lines[1..]);
      } else {
        NoneTogether(lines[1..]);
      }
    }
  }

  lemma SpacedIsTogether(lines: seq<string>)
    requires lines != []
    ensures Spaced(true, lines) <==> Together(IsWord(lines[0]), lines)
  {
    hide IsWord;
    if Spaced(true, lines) {
      forall i: nat | 0 < i < |lines| && IsWord(lines[i])
        ensures Attached(true, lines, i)
      {
        assert Follows(true, lines, i);
      }
    }
  }

  // With the flag up only a block at the very start is served, which takes the flag down; so every block
  // is served exactly when there is none or just that one.
  lemma ServedFlagUp(lines: seq<string>)
    ensures lines != [] && IsWord(lines[0]) ==>
      Blocks(lines) != [] && Serve(true, lines) == Service([Blocks(lines)[0]], false)
    ensures lines == [] || !IsWord(lines[0]) ==> Serve(true, lines) == Service([], true)
    ensures Serve(true, lines).served == Blocks(lines) <==> Spaced(true, lines)
  {
    hide Trim, IsBlank, Together, Spaced;
    EofIsNotBlank();
    if lines == [] {
      NothingSpaced();
    } else {
      assert [] + ReadBlock(lines).tokens == ReadBlock(lines).tokens;
      FirstBlock([], lines);
      SpacedIsTogether(lines);
      if IsWord(lines[0]) {
        TogetherStep(true, lines);
        assert [] + [Trim(lines[0])] == [Trim(lines[0])];
        OneBlockIff([Trim(lines[0])], lines[1..]);
      } else {
        NoneTogether(lines);
      }
    }
  }

  lemma NothingSpaced()
    ensures Spaced(true, []) && Spaced(false, [])
  {
  }

  // ---- What a client sends: its input, a blank line and the marker. ----

  lemma SentBlocks(lines: seq<string>)
    ensures Blocks(Sent(lines)) == Blocks(lines)
  {
    EofIsNotBlank();
    hide IsWord;
    assert Sent(lines) == lines + [""] + [EOF];
    BlocksSplit([], lines, "", [EOF]);
    NoBlocksIff([], [EOF]);
  }

  lemma SentSpaced(eofReached: bool, lines: seq<string>)
    ensures Spaced(eofReached, Sent(lines)) <==> Spaced(eofReached, lines)
  {
    EofIsNotBlank();
    hide IsWord, IsBlank;
    if Spaced(eofReached, Sent(lines)) {
      forall i: nat | 0 < i < |lines| && IsWord(lines[i])
        ensures Follows(eofReached, lines, i)
      {
        assert Follows(eofReached, Sent(lines), i);
      }
    }
    if Spaced(eofReached, lines) {
      forall i: nat | 0 < i < |Sent(lines)| && IsWord(Sent(lines)[i])
        ensures Follows(eofReached, Sent(lines), i)
      {
        assert Follows(eofReached, lines, i);
      }
    }
  }

  // Every block a client sends is served exactly when its words are spaced so, for every input.
  lemma ClientServedIff(eofReached: bool, lines: seq<string>)
    ensures |Serve(eofReached, Sent(lines)).served| <= |Blocks(lines)|
    ensures Serve(eofReached, Sent(lines)).served == Blocks(lines) <==> Spaced(eofReached, lines)
  {
    hide Serve, BlocksFrom, Spaced, Sent;
    SentBlocks(lines);
    SentSpaced(eofReached, lines);
    if eofReached {
      ServedFlagUp(Sent(lines));
    } else {
      AllServedFlagDown(Sent(lines));
    }
  }

  // ---- The flag at the next accept. ----

  function FirstMarker(lines: seq<string>): (e: nat)
    ensures e <= |lines| && (e < |lines| ==> lines[e] == EOF)
    ensures forall j :: 0 <= j < e ==> lines[j] != EOF
  {
    if lines == [] || lines[0] == EOF then 0 else 1 + FirstMarker(lines[1..])
  }

  // With the flag down: the server gets to the first marker, and that ends no block.
  ghost predicate LeavesFlagUp(lines: seq<string>)
  {
    var sent := Sent(lines);
    var e := FirstMarker(sent);
    && e < |sent| && (e == 0 || !IsWord(sent[e - 1]))
    && forall j: nat :: j < e ==> !Stops(false, sent, j)
  }

  ghost predicate NextFlag(eofReached: bool, lines: seq<string>)
  {
    if eofReached then lines == [] || !IsWord(lines[0]) else LeavesFlagUp(lines)
  }

  lemma NextFlagIsExact(eofReached: bool, lines: seq<string>)
    ensures Serve(eofReached, Sent(lines)).eofReached <==> NextFlag(eofReached, lines)
  {
    hide Serve, BlocksFrom, IsBlank, FirstStop, FirstMarker;
    EofIsNotBlank();
    if eofReached {
      ServedFlagUp(Sent(lines));
    } else {
      var sent := Sent(lines);
      var p, e := FirstStop(false, sent), FirstMarker(sent);
      ServedFlagDown(sent);
      StopIsFirst(false, sent);
      assert sent[|lines| + 1] == EOF;
      assert Stops(false, sent, e);
      assert p <= e;
    }
  }

  // Without a marker among its lines an input leaves the flag up exactly when its words are spaced as
  // they should be and the last line is one.
  lemma LeavesFlagUpIff(lines: seq<string>)
    requires EOF !in lines
    ensures LeavesFlagUp(lines) <==> Spaced(false, lines) && lines != [] && IsWord(lines[|lines| - 1])
  {
    hide IsBlank, FirstStop, FirstMarker, Spaced, IsWord;
    EofIsNotBlank();
    var sent := Sent(lines);
    var n := |lines|;
    assert sent[n] == "" && sent[n + 1] == EOF && forall j :: 0 <= j < n ==> sent[j] == lines[j];
    assert FirstMarker(sent) == n + 1;
    SentSpaced(false, lines);
    WordsBehindStopIff(sent);
    StopIsFirst(false, sent);
    var p := FirstStop(false, sent);
    assert Stops(false, sent, n + 1);
    if LeavesFlagUp(lines) {
      assert p == n + 1;
      assert !Stops(false, sent, n);
    }
    if Spaced(false, lines) && n > 0 && IsWord(lines[n - 1]) {
      assert IsWord(sent[n - 1]);
      assert p >= n;
      assert !Stops(false, sent, n);
    }
  }

  // ---- Any number of clients, with any lines. ----

  function AllSent(clients: seq<seq<string>>): seq<seq<string>>
  {
    seq(|clients|, k requires 0 <= k < |clients| => Sent(clients[k]))
  }

  function AllBlocks(clients: seq<seq<string>>): seq<seq<string>>
  {
    if clients == [] then []
    else AllBlocks(clients[..|clients| - 1]) + Blocks(clients[|clients| - 1])
  }

  ghost predicate FlagAfter(clients: seq<seq<string>>)
  {
    clients != [] && NextFlag(FlagAfter(clients[..|clients| - 1]), clients[|clients| - 1])
  }

  lemma {:induction false} FlagIsExact(clients: seq<seq<string>>)
    ensures ServeAll(false, AllSent(clients)).1 == FlagAfter(clients)
  {
    hide Serve, Sent, NextFlag;
    if clients == [] {
    } else {
      var k := |clients| - 1;
      FlagIsExact(clients[..k]);
      assert AllSent(clients)[..k] == AllSent(clients[..k]);
      NextFlagIsExact(FlagAfter(clients[..k]), clients[k]);
    }
  }

  // Client k meets a flag it can live with.
  ghost predicate WellServed(clients: seq<seq<string>>, k: nat)
    requires k < |clients|
  {
    Spaced(FlagAfter(clients[..k]), clients[k])
  }

  // Every block of every client is served, in order, exactly when every client's words are spaced as the
  // flag it meets allows.
  lemma {:induction false} AllServedIff(clients: seq<seq<string>>)
    ensures |ServeAll(false, AllSent(clients)).0| <= |AllBlocks(clients)|
    ensures ServeAll(false, AllSent(clients)).0 == AllBlocks(clients) <==>
      forall k: nat :: k < |clients| ==> WellServed(clients, k)
  {
    hide Serve, Sent, Spaced, FlagAfter, BlocksFrom;
    if clients == [] {
    } else {
      var n := |clients| - 1;
      AllServedIff(clients[..n]);
      FlagIsExact(clients[..n]);
      assert AllSent(clients)[..n] == AllSent(clients[..n]);
      assert forall k :: 0 <= k <= n ==> clients[..n][..k] == clients[..k];
      assert forall k: nat :: k < n ==> (WellServed(clients, k) <==> WellServed(clients[..n], k));
      ClientServedIff(FlagAfter(clients[..n]), clients[n]);
      LengthsDecide(ServeAll(false, AllSent(clients[..n])).0, AllBlocks(clients[..n]),
                    Serve(FlagAfter(clients[..n]), Sent(clients[n])).served, Blocks(clients[n]));
      assert WellServed(clients, n) <==> Spaced(FlagAfter(clients[..n]), clients[n]);
      var all, last := ServeAll(false, AllSent(clients)).0, Serve(FlagAfter(clients[..n]), Sent(clients[n])).served;
      assert all == ServeAll(false, AllSent(clients[..n])).0 + last;
    }
  }

  lemma LengthsDecide(a: seq<seq<string>>, a': seq<seq<string>>, b: seq<seq<string>>, b': seq<seq<string>>)
    requires |a| <= |a'| && |b| <= |b'|
    ensures a + b == a' + b' <==> a == a' && b == b'
  {
    if a + b == a' + b' {
      assert |a + b| == |a' + b'|;
      assert a == (a + b)[..|a|] && a' == (a' + b')[..|a'|];
      assert b == (a + b)[|a|..] && b' == (a' + b')[|a'|..];
    }
  }

  // An input without a marker whose last line, if any, is no word.
  ghost predicate EndsBlank(lines: seq<string>)
  {
    EOF !in lines && (lines == [] || !IsWord(lines[|lines| - 1]))
  }

  // When every input ends in a blank line the flag is down at every accept, and all is served exactly when
  // no input has a blank line too many in front of a block.
  lemma {:induction false} TrailingBlanksKeepFlagDown(clients: seq<seq<string>>)
    requires forall k :: 0 <= k < |clients| ==> EndsBlank(clients[k])
    ensures forall k :: 0 <= k <= |clients| ==> !FlagAfter(clients[..k])
    ensures ServeAll(false, AllSent(clients)).0 == AllBlocks(clients) <==>
      forall k :: 0 <= k < |clients| ==> Spaced(false, clients[k])
  {
    hide Serve, Sent, Spaced, LeavesFlagUp, AllBlocks, ServeAll;
    forall k: nat | k <= |clients|
      ensures !FlagAfter(clients[..k])
    {
      FlagDown(clients[..k]);
    }
    AllServedIff(clients);
    assert forall k: nat :: k < |clients| ==> (WellServed(clients, k) <==> Spaced(false, clients[k]));
  }

  lemma {:induction false} FlagDown(clients: seq<seq<string>>)
    requires forall k :: 0 <= k < |clients| ==> EndsBlank(clients[k])
    ensures !FlagAfter(clients)
  {
    hide LeavesFlagUp, Spaced, IsWord;
    if clients == [] {
    } else {
      var n := |clients| - 1;
      FlagDown(clients[..n]);
      assert EndsBlank(clients[n]);
      LeavesFlagUpIff(clients[n]);
    }
  }

  // ---- Inputs that fail. ----

  lemma ConcreteLines()
    ensures IsWord("a") && IsWord("b")
    ensures Trim("a") == "a" && Trim("b") == "b"
  {
    assert TrimLeft("a") == "a" && TrimRight("a") == "a" && TrimLeft("b") == "b" && TrimRight("b") == "b";
  }

  // A doubled blank line ends the service: the block behind it is lost, although the input ends in a blank
  // line and the flag stays down.
  lemma DoubledBlankLosesABlock()
    ensures Blocks(["a", "", "", "b", ""]) == [["a"], ["b"]]
    ensures Serve(false, Sent(["a", "", "", "b", ""])) == Service([["a"]], false)
  {
    ConcreteLines();
    EofIsNotBlank();
    hide IsWord, IsBlank, Trim;
    var lines := ["a", "", "", "b", ""];
    assert lines == ["a", "", ""] + ["b", ""];
    BlockAndMore("a", [""] + ["b", ""]);
    assert lines == ["a", ""] + ([""] + ["b", ""]);
    assert Blocks([""] + ["b", ""]) == Blocks(["b", ""]) by {
      assert ([""] + ["b", ""])[1..] == ["b", ""];
      assert [] + Blocks(["b", ""]) == Blocks(["b", ""]);
    }
    BlockAndMore("b", []);
    assert ["b", ""] + [] == ["b", ""];
    var rest := ["", "b", "", "", EOF];
    assert Sent(lines) == ["a", ""] + rest;
    BlockAndMore("a", rest);
  }

  // A word line and a blank line in front.
  lemma BlockAndMore(word: string, rest: seq<string>)
    requires IsWord(word)
    ensures Blocks([word, ""] + rest) == [[Trim(word)]] + Blocks(rest)
    ensures ReadBlock([word, ""] + rest) == Block([Trim(word)], rest, false)
  {
    var all := [word, ""] + rest;
    assert all[1..] == [""] + rest && ([""] + rest)[1..] == rest;
    EofIsNotBlank();
    hide IsWord, IsBlank, Trim;
    assert [] + [Trim(word)] == [Trim(word)];
    assert BlocksFrom([Trim(word)], [""] + rest) == [[Trim(word)]] + Blocks(rest);
    assert BlocksFrom([], all) == BlocksFrom([Trim(word)], all[1..]);
  }

  // A blank line in front of the first block: nothing is served.
  lemma LeadingBlankLosesAll()
    ensures Blocks(["", "a"]) == [["a"]]
    ensures Serve(false, Sent(["", "a"])) == Service([], false)
  {
    ConcreteLines();
    EofIsNotBlank();
    hide IsWord, IsBlank, Trim;
    assert ["", "a"][1..] == ["a"] && ["a"][1..] == [] && [] + ["a"] == ["a"];
    assert Sent(["", "a"])[0] == "";
  }

  // A client that meets the flag up gets its first block only.
  lemma FlagUpLosesABlock()
    ensures Blocks(["a", "", "b", ""]) == [["a"], ["b"]]
    ensures Serve(true, Sent(["a", "", "b", ""])) == Service([["a"]], false)
  {
    ConcreteLines();
    EofIsNotBlank();
    hide IsWord, IsBlank, Trim;
    assert ["a", "", "b", ""] == ["a", ""] + ["b", ""] && ["b", ""] + [] == ["b", ""];
    BlockAndMore("a", ["b", ""]);
    BlockAndMore("b", []);
    assert Sent(["a", "", "b", ""]) == ["a", ""] + ["b", "", "", EOF];
    BlockAndMore("a", ["b", "", "", EOF]);
  }

  // ---- Inputs that are as they should be: blocks separated by one blank line. ----

  ghost predicate AreBlocks(blocks: seq<seq<string>>)
  {
    forall b :: 0 <= b < |blocks| ==> IsBlock(blocks[b])
  }

  ghost predicate IsBlock(block: seq<string>)
  {
    block != [] && forall i :: 0 <= i < |block| ==> IsWord(block[i])
  }

  // The last block is followed by a blank line or not.
  function Input(blocks: seq<seq<string>>, trailing: bool): seq<string>
  {
    if blocks == [] then []
    else if |blocks| == 1 then blocks[0] + (if trailing then [""] else [])
    else blocks[0] + [""] + Input(blocks[1..], trailing)
  }

  function Trimmed(lines: seq<string>): seq<string>
  {
    seq(|lines|, i requires 0 <= i < |lines| => Trim(lines[i]))
  }

  function AllTrimmed(blocks: seq<seq<string>>): seq<seq<string>>
  {
    seq(|blocks|, b requires 0 <= b < |blocks| => Trimmed(blocks[b]))
  }

  lemma {:induction false} BlockRead(block: seq<string>, rest: seq<string>)
    requires forall i :: 0 <= i < |block| ==> IsWord(block[i])
    ensures ReadBlock(block + [""] + rest) == Block(Trimmed(block), rest, false)
  {
    var all := block + [""] + rest;
    if block == [] {
      assert all[1..] == rest && IsBlank("");
    } else {
      assert all[1..] == block[1..] + [""] + rest;
      BlockRead(block[1..], rest);
      assert Trimmed(block) == [Trim(block[0])] + Trimmed(block[1..]);
    }
  }

  lemma EndRead(rest: seq<string>)
    ensures ReadBlock([""] + rest) == Block([], rest, false)
    ensures ReadBlock([EOF] + rest) == Block([], rest, true)
  {
    assert ([""] + rest)[1..] == rest && ([EOF] + rest)[1..] == rest;
    assert IsBlank("");
    assert TrimLeft(EOF) == EOF && TrimRight(EOF) == EOF;
  }

  // With the flag down every block is served, and the flag is left up exactly when the input did not
  // end in a blank line. With the flag up only the first block is served, which takes the flag down.
  // Without blocks nothing happens.
  lemma {:induction false} ConnectionOutcome(eofReached: bool, blocks: seq<seq<string>>, trailing: bool)
    requires AreBlocks(blocks)
    ensures Serve(eofReached, Sent(Input(blocks, trailing)))
      == if blocks == [] then Service([], eofReached)
         else if eofReached then Service([Trimmed(blocks[0])], false)
         else Service(AllTrimmed(blocks), !trailing)
    decreases |blocks|
  {
    var lines := Sent(Input(blocks, trailing));
    hide ReadBlock, IsBlank, Trim, IsWord;
    if blocks == [] {
      assert lines == [""] + [EOF];
      EndRead([EOF]);
    } else {
      var block, later := blocks[0], blocks[1..];
      assert IsBlock(block);
      var rest := if later == [] then (if trailing then ["", EOF] else [EOF]) else Sent(Input(later, trailing));
      assert lines == block + [""] + rest;
      BlockRead(block, rest);
      assert Trimmed(block) != [];
      if later == [] {
        assert rest == if trailing then [""] + [EOF] else [EOF] + [];
        EndRead([EOF]);
        EndRead([]);
        assert AllTrimmed(blocks) == [Trimmed(block)];
      } else {
        ConnectionOutcome(false, later, trailing);
        assert AllTrimmed(blocks) == [Trimmed(block)] + AllTrimmed(later);
      }
    }
  }
}
