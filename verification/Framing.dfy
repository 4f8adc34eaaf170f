// NUL-terminated message framing over a byte stream (socket.h). A read returns any non-empty part of
// the bytes that have arrived, up to the buffer size; characters stand for bytes.
module Framing {
  import opened Strings

  const BUFF_SZ := 2048
  const NUL := '\0'

  // std::string(buffer): the bytes before the first NUL.
  function UpToNul(chunk: string): string
  {
    if chunk == "" || chunk[0] == NUL then "" else [chunk[0]] + UpToNul(chunk[1..])
  }

  predicate EndsMessage(chunk: string)
  {
    chunk != "" && chunk[|chunk| - 1] == NUL
  }

  lemma {:induction false} UpToNulOfPart(m: string, k: nat)
    requires NUL !in m && k <= |m| + 1
    ensures UpToNul((m + [NUL])[..k]) == if k <= |m| then m[..k] else m
    ensures EndsMessage((m + [NUL])[..k]) <==> k == |m| + 1
  {
    var chunk := (m + [NUL])[..k];
    if m != "" && k > 0 {
      assert chunk[0] == m[0];
      assert chunk[1..] == (m[1..] + [NUL])[..k - 1];
      UpToNulOfPart(m[1..], k - 1);
    }
  }

  // ---- Runs of the reading loop. ----

  // The string the loop has accumulated after reading the chunks.
  function Accumulated(chunks: seq<string>): string
  {
    if chunks == [] then "" else Accumulated(chunks[..|chunks| - 1]) + UpToNul(chunks[|chunks| - 1])
  }

  // The chunks are successive reads of one read_message call: the loop stops after a chunk that ends
  // in NUL.
  ghost predicate IsRun(chunks: seq<string>, stream: string)
  {
    && Concat(chunks) <= stream
    && (forall i :: 0 <= i < |chunks| ==> 1 <= |chunks[i]| <= BUFF_SZ)
    && (forall i :: 0 <= i < |chunks| - 1 ==> !EndsMessage(chunks[i]))
  }

  ghost predicate Finished(chunks: seq<string>)
  {
    chunks != [] && EndsMessage(chunks[|chunks| - 1])
  }

  // With one message in flight every fragmentation gives the message back: the loop stops exactly
  // at its end and never before.
  lemma {:induction false} OneMessageIsReadBack(m: string, chunks: seq<string>)
    requires NUL !in m && IsRun(chunks, m + [NUL])
    ensures Finished(chunks) <==> |Concat(chunks)| == |m| + 1
    ensures Accumulated(chunks) == if Finished(chunks) then m else Concat(chunks)
  {
    if chunks == [] {
    } else {
      var n := |chunks| - 1;
      var before := chunks[..n];
      assert chunks == before + [chunks[n]];
      ConcatSnoc(before, chunks[n]);
      OneMessageIsReadBack(m, before);
      assert n > 0 ==> before[n - 1] == chunks[n - 1];
      PartOfMessage(m, Concat(before), chunks[n], (m + [NUL])[|Concat(chunks)|..]);
    }
  }

  function Singles(m: string): seq<string>
  {
    seq(|m|, i requires 0 <= i < |m| => [m[i]])
  }

  lemma {:induction false} SinglesConcat(m: string)
    ensures Concat(Singles(m)) == m
  {
    if m == "" {
    } else {
      var n := |m| - 1;
      assert Singles(m) == Singles(m[..n]) + [[m[n]]];
      ConcatSnoc(Singles(m[..n]), [m[n]]);
      SinglesConcat(m[..n]);
    }
  }

  // The framing is safe exactly when nothing follows the message: as soon as another byte is in
  // flight, some fragmentation swallows it.
  lemma SafeIffOneMessageInFlight(m: string, rest: string)
    requires NUL !in m
    ensures (forall chunks :: IsRun(chunks, m + [NUL] + rest) ==> |Concat(chunks)| <= |m| + 1) <==> rest == ""
  {
    var stream := m + [NUL] + rest;
    if rest != "" {
      var chunks := Singles(m) + [[NUL, rest[0]]];
      SinglesConcat(m);
      ConcatSnoc(Singles(m), [NUL, rest[0]]);
      assert Concat(chunks) == stream[..|m| + 2];
      assert IsRun(chunks, stream);
    }
  }

  // One end of a connection.
  class Connection {
    var incoming: string
    var outgoing: string
    var peerClosed: bool

    constructor (incoming: string, peerClosed: bool)
      ensures this.incoming == incoming && this.peerClosed == peerClosed && outgoing == ""
    {
      this.incoming, this.peerClosed, outgoing := incoming, peerClosed, "";
    }

    // read(): blocks until bytes have arrived or the peer has closed, and then returns any number of
    // them that fits the buffer.
    method ReadFromSocket() returns (chunk: string)
      requires incoming != "" || peerClosed
      modifies this`incoming
      ensures |chunk| <= BUFF_SZ && chunk + incoming == old(incoming)
      ensures chunk == "" <==> old(incoming) == ""
    {
      if incoming == "" {
        chunk := "";
      } else {
        var k :| 1 <= k <= |incoming| && k <= BUFF_SZ;
        chunk, incoming := incoming[..k], incoming[k..];
      }
    }

    // read_message, called when one message is in flight or the peer has closed: it returns the
    // message and its size with the terminator, or 0 at the end of the connection, so an empty
    // message and the end of the connection are told apart.
    method ReadMessage(ghost m: string) returns (s: string, nt: nat)
      requires NUL !in m
      requires incoming == m + [NUL] || (incoming == "" && peerClosed)
      modifies this`incoming
      ensures incoming == ""
      ensures if old(incoming) == "" then s == "" && nt == 0 else s == m && nt == |m| + 1
    {
      hide UpToNul, EndsMessage;
      var buffer := ReadFromSocket();
      PartOfMessage(m, "", buffer, incoming);
      s := UpToNul(buffer);
      nt := |buffer|;
      var n := |buffer|;
      while n > 0 && !EndsMessage(buffer)
        invariant |buffer| == n
        invariant n == 0 ==> s == "" && nt == 0 && incoming == "" && old(incoming) == ""
        invariant n > 0 ==> old(incoming) == m + [NUL]
        invariant n > 0 && EndsMessage(buffer) ==> incoming == "" && s == m && nt == |m| + 1
        invariant n > 0 && !EndsMessage(buffer) ==> incoming != "" && s + incoming == m + [NUL] && nt == |s|
        decreases |incoming|, n > 0 && !EndsMessage(buffer)
      {
        buffer := ReadFromSocket();
        PartOfMessage(m, s, buffer, incoming);
        n := |buffer|;
        s := s + UpToNul(buffer);
        nt := nt + n;
      }
    }

    method WriteMessage(s: string)
      modifies this`outgoing
      ensures outgoing == old(outgoing) + s + [NUL]
    {
      outgoing := outgoing + (s + [NUL]);
    }
  }

  // What one end writes in one message the other end reads, when nothing else is in flight.
  method Deliver(sender: Connection, receiver: Connection, s: string) returns (r: string, nt: nat)
    requires sender != receiver && NUL !in s && sender.outgoing == "" && receiver.incoming == ""
    modifies sender`outgoing, receiver`incoming
    ensures r == s && nt == |s| + 1 && sender.outgoing == "" && receiver.incoming == ""
  {
    sender.WriteMessage(s);
    assert sender.outgoing == s + [NUL];
    receiver.incoming, sender.outgoing := sender.outgoing, "";
    r, nt := receiver.ReadMessage(s);
  }

  // One more chunk of a message that is being read.
  lemma PartOfMessage(m: string, acc: string, chunk: string, left: string)
    requires chunk != "" ==> NUL !in m && acc + chunk + left == m + [NUL]
    ensures chunk != "" ==> (EndsMessage(chunk) <==> left == "")
    ensures chunk != "" ==> acc + UpToNul(chunk) == if left == "" then m else acc + chunk
    ensures chunk == "" ==> UpToNul(chunk) == ""
  {
    if chunk != "" {
      var total := m + [NUL];
      assert |acc| <= |m| by {
        assert |acc| + |chunk| + |left| == |m| + 1;
      }
      var tail := m[|acc|..];
      assert m[..|acc|] == total[..|acc|] == acc;
      assert m == acc + tail;
      assert tail + [NUL] == total[|acc|..] == chunk + left;
      assert chunk == (tail + [NUL])[..|chunk|];
      UpToNulOfPart(tail, |chunk|);
    }
  }
}
