// The MaltParser server and its client: blocks of lines ended by blank lines, an end marker, and a
// static flag that outlives a connection (MaltParserServer.java, MPClient.java).
module MaltServer {

  const EOF := "#EOF"

  // ---- Lines. ----

  function TrimLeft(s: string): string
  {
    if s != "" && s[0] <= ' ' then TrimLeft(s[1..]) else s
  }

  function TrimRight(s: string): string
  {
    if s != "" && s[|s| - 1] <= ' ' then TrimRight(s[..|s| - 1]) else s
  }

  // String.trim.
  function Trim(s: string): string
  {
    TrimRight(TrimLeft(s))
  }

  predicate IsBlank(line: string)
  {
    Trim(line) == ""
  }

  // ---- What one connection does. ----

  datatype Block = Block(tokens: seq<string>, rest: seq<string>, sawEof: bool)

  // readSentence: up to a blank line, the end marker, or the end of the stream.
  function ReadBlock(lines: seq<string>): (b: Block)
    ensures |b.rest| <= |lines|
    ensures b.tokens != [] ==> |b.rest| < |lines|
  {
    if lines == [] then Block([], [], false)
    else if IsBlank(lines[0]) then Block([], lines[1..], false)
    else if lines[0] == EOF then Block([], lines[1..], true)
    else
      var more := ReadBlock(lines[1..]);
      Block([Trim(lines[0])] + more.tokens, more.rest, more.sawEof)
  }

  datatype Service = Service(served: seq<seq<string>>, eofReached: bool)

  // parseSentences, with the flag on entry.
  function Serve(eofReached: bool, lines: seq<string>): Service
    decreases |lines|
  {
    var b := ReadBlock(lines);
    var flag := eofReached || b.sawEof;
    if b.tokens == [] then Service([], flag)
    else if flag then Service([b.tokens], false)
    else
      var more := Serve(flag, b.rest);
      Service([b.tokens] + more.served, more.eofReached)
  }

  function Parsed(parse: seq<string> -> seq<string>, blocks: seq<seq<string>>): seq<seq<string>>
  {
    seq(|blocks|, i requires 0 <= i < |blocks| => parse(blocks[i]))
  }

  class LineReader {
    const lines: seq<string>
    var pos: nat

    constructor (lines: seq<string>)
      ensures this.lines == lines && pos == 0
    {
      this.lines, pos := lines, 0;
    }
  }

  class MaltParserServer {
    const parse: seq<string> -> seq<string>
    var eofReached: bool
    var written: seq<seq<string>>

    constructor (parse: seq<string> -> seq<string>)
      ensures this.parse == parse && !eofReached && written == []
    {
      this.parse, eofReached, written := parse, false, [];
    }

    method ReadSentence(reader: LineReader) returns (tokens: seq<string>)
      requires reader.pos <= |reader.lines|
      modifies this`eofReached, reader`pos
      ensures old(reader.pos) <= reader.pos <= |reader.lines|
      ensures var b := ReadBlock(reader.lines[old(reader.pos)..]);
        && tokens == b.tokens && reader.lines[reader.pos..] == b.rest
        && eofReached == (old(eofReached) || b.sawEof)
    {
      hide ReadBlock, IsBlank, Trim;
      ghost var all := ReadBlock(reader.lines[reader.pos..]);
      BlockEnds([]);
      tokens := [];
      while reader.pos < |reader.lines|
        invariant old(reader.pos) <= reader.pos <= |reader.lines| && eofReached == old(eofReached)
        invariant var b := ReadBlock(reader.lines[reader.pos..]);
          all == Block(tokens + b.tokens, b.rest, b.sawEof)
        decreases |reader.lines| - reader.pos
      {
        var line := reader.lines[reader.pos];
        assert reader.lines[reader.pos..][1..] == reader.lines[reader.pos + 1..];
        BlockEnds(reader.lines[reader.pos..]);
        reader.pos := reader.pos + 1;
        if IsBlank(line) {
          return;
        } else if line == EOF {
          eofReached := true;
          return;
        } else {
          tokens := tokens + [Trim(line)];
        }
      }
    }

    method ParseSentences(reader: LineReader)
      requires reader.pos <= |reader.lines|
      modifies this`eofReached, this`written, reader`pos
      ensures var s := Serve(old(eofReached), reader.lines[old(reader.pos)..]);
        written == old(written) + Parsed(parse, s.served) && eofReached == s.eofReached
    {
      hide Serve, ReadBlock, SoFar, Parsed;
      ghost var whole := Serve(eofReached, reader.lines[reader.pos..]);
      ghost var done: seq<seq<string>> := [];
      SoFarStarts(parse, written, eofReached, reader.lines[reader.pos..]);
      while true
        invariant reader.pos <= |reader.lines|
        invariant SoFar(whole, done, eofReached, reader.lines[reader.pos..])
        invariant written == old(written) + Parsed(parse, done)
        decreases |reader.lines| - reader.pos
      {
        SoFarStep(whole, done, eofReached, reader.lines[reader.pos..]);
        var inputTokens := ReadSentence(reader);
        if inputTokens == [] {
          break;
        }
        ParsedSnoc(parse, done, inputTokens);
        done := done + [inputTokens];
        if eofReached {
          eofReached := false;
          written := written + [parse(inputTokens)];
          break;
        }
        written := written + [parse(inputTokens)];
      }
    }

    // The accept loop, over the lines each client sends.
    method AcceptAll(connections: seq<seq<string>>)
      modifies this`eofReached, this`written
      ensures var (served, flag) := ServeAll(old(eofReached), connections);
        written == old(written) + Parsed(parse, served) && eofReached == flag
    {
      hide Serve, ServeAll, Parsed;
      ghost var flag0 := eofReached;
      NothingAccepted(parse, flag0, connections, written);
      for k := 0 to |connections|
        invariant eofReached == ServeAll(flag0, connections[..k]).1
        invariant written == old(written) + Parsed(parse, ServeAll(flag0, connections[..k]).0)
      {
        var reader := new LineReader(connections[k]);
        OneMoreAccepted(parse, flag0, connections, k);
        ParseSentences(reader);
      }
      assert connections[..|connections|] == connections;
    }
  }

  lemma BlockEnds(lines: seq<string>)
    ensures ReadBlock(lines)
      == if lines == [] then Block([], [], false)
         else if IsBlank(lines[0]) then Block([], lines[1..], false)
         else if lines[0] == EOF then Block([], lines[1..], true)
         else
           var more := ReadBlock(lines[1..]);
           Block([Trim(lines[0])] + more.tokens, more.rest, more.sawEof)
  {
  }

  // What has been served so far, and the service of the lines left, are the whole service.
  ghost predicate SoFar(whole: Service, done: seq<seq<string>>, eofReached: bool, left: seq<string>)
  {
    var s := Serve(eofReached, left);
    whole == Service(done + s.served, s.eofReached)
  }

  lemma SoFarStarts(parse: seq<string> -> seq<string>, written: seq<seq<string>>, eofReached: bool, left: seq<string>)
    ensures SoFar(Serve(eofReached, left), [], eofReached, left)
    ensures written + Parsed(parse, []) == written
  {
    assert [] + Serve(eofReached, left).served == Serve(eofReached, left).served;
  }

  lemma SoFarStep(whole: Service, done: seq<seq<string>>, eofReached: bool, left: seq<string>)
    requires SoFar(whole, done, eofReached, left)
    ensures var b := ReadBlock(left);
      var flag := eofReached || b.sawEof;
      && |b.rest| <= |left| && (b.tokens != [] ==> |b.rest| < |left|)
      && if b.tokens == [] then whole == Service(done, flag)
         else if flag then whole == Service(done + [b.tokens], false)
         else SoFar(whole, done + [b.tokens], flag, b.rest)
  {
    hide ReadBlock;
    var b := ReadBlock(left);
    if b.tokens == [] {
      assert done + [] == done;
    } else if !(eofReached || b.sawEof) {
      var more := Serve(false, b.rest);
      assert done + ([b.tokens] + more.served) == done + [b.tokens] + more.served;
    }
  }

  lemma ParsedSnoc(parse: seq<string> -> seq<string>, done: seq<seq<string>>, block: seq<string>)
    ensures Parsed(parse, done + [block]) == Parsed(parse, done) + [parse(block)]
  {
  }

  lemma ParsedAppend(parse: seq<string> -> seq<string>, us: seq<seq<string>>, vs: seq<seq<string>>)
    ensures Parsed(parse, us + vs) == Parsed(parse, us) + Parsed(parse, vs)
  {
  }

  // All sentences served over a sequence of connections, and the flag afterwards.
  function ServeAll(eofReached: bool, connections: seq<seq<string>>): (seq<seq<string>>, bool)
  {
    if connections == [] then ([], eofReached)
    else
      var k := |connections| - 1;
      var (served, flag) := ServeAll(eofReached, connections[..k]);
      var last := Serve(flag, connections[k]);
      (served + last.served, last.eofReached)
  }

  lemma NothingAccepted(parse: seq<string> -> seq<string>, eofReached: bool, connections: seq<seq<string>>,
                        written: seq<seq<string>>)
    ensures ServeAll(eofReached, connections[..0]) == ([], eofReached)
    ensures written + Parsed(parse, []) == written
  {
  }

  lemma OneMoreAccepted(parse: seq<string> -> seq<string>, eofReached: bool, connections: seq<seq<string>>, k: nat)
    requires k < |connections|
    ensures connections[k][0..] == connections[k]
    ensures var (served, flag) := ServeAll(eofReached, connections[..k]);
      var last := Serve(flag, connections[k]);
      && ServeAll(eofReached, connections[..k + 1]) == (served + last.served, last.eofReached)
      && Parsed(parse, served + last.served) == Parsed(parse, served) + Parsed(parse, last.served)
  {
    hide Serve, Parsed;
    assert connections[..k + 1][..k] == connections[..k];
    ParsedAppend(parse, ServeAll(eofReached, connections[..k]).0,
                 Serve(ServeAll(eofReached, connections[..k]).1, connections[k]).served);
  }

  // ---- What the client sends. ----

  // Every input line with a newline, then "\n#EOF\n".
  function SentText(lines: seq<string>): string
  {
    if lines == [] then "\n#EOF\n" else lines[0] + "\n" + SentText(lines[1..])
  }

  // readLine, on text without carriage returns.
  function LinesOf(line: string, text: string): seq<string>
    decreases |text|
  {
    if text == "" then (if line == "" then [] else [line])
    else if text[0] == '\n' then [line] + LinesOf("", text[1..])
    else LinesOf(line + [text[0]], text[1..])
  }

  function Sent(lines: seq<string>): seq<string>
  {
    lines + ["", EOF]
  }

  lemma {:induction false} LineRead(line: string, s: string, text: string)
    requires '\n' !in s
    ensures LinesOf(line, s + "\n" + text) == [line + s] + LinesOf("", text)
    decreases |s|
  {
    var all := s + "\n" + text;
    if s == "" {
      assert all[1..] == text && line + s == line;
    } else {
      assert all[1..] == s[1..] + "\n" + text && all[0] == s[0];
      LineRead(line + [s[0]], s[1..], text);
      assert line + [s[0]] + s[1..] == line + s;
    }
  }

  // The server reads the client's lines, a blank line and the marker.
  lemma {:induction false} SentIsRead(lines: seq<string>)
    requires forall i :: 0 <= i < |lines| ==> '\n' !in lines[i]
    ensures LinesOf("", SentText(lines)) == Sent(lines)
  {
    if lines == [] {
      LineRead("", "", "#EOF\n");
      LineRead("", EOF, "");
      assert "" + "\n" + "#EOF\n" == "\n#EOF\n" && EOF + "\n" + "" == "#EOF\n";
      assert "" + EOF == EOF;
      assert LinesOf("", "") == [];
    } else {
      SentIsRead(lines[1..]);
      LineRead("", lines[0], SentText(lines[1..]));
      assert "" + lines[0] == lines[0];
    }
  }

  // ---- What is trimmed. ----

  ghost predicate AllLow(s: string)
  {
    forall i :: 0 <= i < |s| ==> s[i] <= ' '
  }

  lemma {:induction false} LeftTrimmed(u: string, s: string)
    requires AllLow(u) && (s == "" || s[0] > ' ')
    ensures TrimLeft(u + s) == s
  {
    if u == "" {
      assert u + s == s;
    } else {
      assert (u + s)[1..] == u[1..] + s;
      LeftTrimmed(u[1..], s);
    }
  }

  lemma {:induction false} RightTrimmed(s: string, v: string)
    requires AllLow(v) && (s == "" || s[|s| - 1] > ' ')
    ensures TrimRight(s + v) == s
    decreases |v|
  {
    if v == "" {
      assert s + v == s;
    } else {
      var n := |v| - 1;
      assert (s + v)[..|s + v| - 1] == s + v[..n];
      RightTrimmed(s, v[..n]);
    }
  }

  // Of a line everything up to the blank is cut at both ends, and nothing else.
  lemma TrimmedIs(u: string, s: string, v: string)
    requires AllLow(u) && AllLow(v) && (s == "" || (s[0] > ' ' && s[|s| - 1] > ' '))
    ensures Trim(u + (s + v)) == s
  {
    if s == "" {
      LeftTrimmed(u + v, "");
      assert u + (s + v) == u + v + "";
    } else {
      LeftTrimmed(u, s + v);
      RightTrimmed(s, v);
    }
  }

  lemma BlankIff(line: string)
    ensures IsBlank(line) <==> AllLow(line)
  {
    if AllLow(line) {
      TrimmedIs(line, "", "");
      assert line + ("" + "") == line;
    } else {
      SomethingLeft(line);
    }
  }

  lemma {:induction false} SomethingLeft(line: string)
    requires !AllLow(line)
    ensures Trim(line) != ""
  {
    if line[0] <= ' ' {
      SomethingLeft(line[1..]);
    } else {
      StartStays(line);
    }
  }

  lemma {:induction false} StartStays(line: string)
    requires line != "" && line[0] > ' '
    ensures TrimRight(line) != ""
  {
    var n := |line| - 1;
    if line[n] <= ' ' {
      StartStays(line[..n]);
    }
  }
}
