/** A whole response on its way to the client: from the endpoint's headers and body pieces, through
    the streamed frames, to the bytes the network stack takes (include/tcp_server/tcp_server.h). */
module HttpDelivery {
  import opened Prelude
  import opened StaticTypes
  import opened StringUtil
  import opened HttpRequest
  import opened HttpResponse

  // ---------------------------------------------------------------- frames on the wire

  lemma {:induction false} SendFramesConcat(l: Link, a: seq<string>, b: seq<string>)
    ensures SendFrames(l, a + b) == SendFrames(SendFrames(l, a), b)
    decreases a
  {
    if a == [] {
      assert a + b == b;
    } else {
      assert (a + b)[0] == a[0] && (a + b)[1..] == a[1..] + b;
      SendFramesConcat(Send(l, a[0]), a[1..], b);
    }
  }

  /** Whether the stack takes every byte of every frame. */
  predicate AllAccepted(l: Link, frames: seq<string>)
    decreases frames
  {
    frames != [] ==>
      && Deliver(frames[0], l.attempts, RETRIES).accepted == |frames[0]|
      && AllAccepted(Send(l, frames[0]), frames[1..])
  }

  /** Whether every call of `send_data` reports success. */
  predicate AllSent(l: Link, frames: seq<string>)
    decreases frames
  {
    frames != [] ==>
      SendFrom(l, frames[0], RETRIES).1 == Sent && AllSent(Send(l, frames[0]), frames[1..])
  }

  lemma {:induction false} SentIsAccepted(l: Link, frames: seq<string>)
    requires AllSent(l, frames)
    ensures AllAccepted(l, frames)
    decreases frames
  {
    if frames != [] {
      SentIsAccepted(Send(l, frames[0]), frames[1..]);
    }
  }

  lemma {:induction false} CapableSends(l: Link, frames: seq<string>)
    requires Capable(l.attempts, RETRIES, |Flatten(frames)|)
    ensures AllSent(l, frames)
    decreases frames
  {
    if frames != [] {
      CapableDelivers(frames[0], l.attempts, RETRIES, |Flatten(frames[1..])|);
      CapableSends(Send(l, frames[0]), frames[1..]);
    }
  }

  /** Whatever the network answers: the frames are on the wire, complete and in order, exactly when
      every byte was accepted. Otherwise the wire has fewer bytes. */
  lemma {:induction false} OnWireIff(l: Link, frames: seq<string>)
    ensures SendFrames(l, frames).wire == l.wire + Flatten(frames) <==> AllAccepted(l, frames)
    ensures |SendFrames(l, frames).wire| <= |l.wire| + |Flatten(frames)|
    decreases frames
  {
    if frames != [] {
      var n := Deliver(frames[0], l.attempts, RETRIES).accepted;
      OnWireIff(Send(l, frames[0]), frames[1..]);
      assert n == |frames[0]| ==> frames[0][..n] == frames[0];
      ConcatAssociative(l.wire, frames[0], Flatten(frames[1..]));
    }
  }

  /** Every flush succeeds, fewer than ten writes are refused in all, every answer has space, and
      there are enough accepted writes for this many bytes. */
  ghost predicate Capable(attempts: seq<Attempt>, retry: nat, bytes: nat) {
    && Flushes(attempts) && Refused(attempts) < retry && |attempts| >= bytes + Refused(attempts)
    && forall k :: 0 <= k < |attempts| ==> attempts[k].space >= 1
  }

  lemma {:induction false} CapableDelivers(data: string, attempts: seq<Attempt>, retry: nat, more: nat)
    requires retry <= RETRIES && Capable(attempts, retry, |data| + more)
    ensures Deliver(data, attempts, retry).status == Sent
    ensures Capable(Deliver(data, attempts, retry).left, RETRIES, more)
    decreases attempts
  {
    if data != "" {
      assert attempts != [];
      var a, left := attempts[0], attempts[1..];
      if a.writeOk {
        CapableDelivers(data[Least(a.space, |data|)..], left, retry, more);
      } else {
        CapableDelivers(data, left, retry - 1, more);
      }
    }
  }

  // ---------------------------------------------------------------- all body pieces

  /** What the body pieces do, one after the other: the frames sent on the way, the buffer, and all
      that was not reached. */
  function Pieces(buffer: string, bodies: seq<string>, frame: nat): (r: Streamed)
    requires |buffer| <= frame
    ensures |r.buffer| <= frame
    decreases bodies
  {
    if bodies == [] then Streamed([], buffer, "")
    else
      var first := Stream(buffer, bodies[0], frame, MAX_FRAMES);
      var r := Pieces(first.buffer, bodies[1..], frame);
      Streamed(first.frames + r.frames, r.buffer, first.rest + r.rest)
  }

  lemma {:induction false} PiecesConserve(buffer: string, bodies: seq<string>, frame: nat)
    requires |buffer| <= frame
    ensures var r := Pieces(buffer, bodies, frame);
      && |Flatten(r.frames) + r.buffer| + |r.rest| == |buffer + Flatten(bodies)|
      && (r.rest == "" ==> Flatten(r.frames) + r.buffer == buffer + Flatten(bodies))
    decreases bodies
  {
    if bodies != [] {
      var first := Stream(buffer, bodies[0], frame, MAX_FRAMES);
      var r := Pieces(first.buffer, bodies[1..], frame);
      StreamConserves(buffer, bodies[0], frame, MAX_FRAMES);
      PiecesConserve(first.buffer, bodies[1..], frame);
      FlattenConcat(first.frames, r.frames);
      JoinPieces(Flatten(first.frames), Flatten(r.frames), r.buffer, first.buffer, Flatten(bodies[1..]),
                 first.rest, r.rest, buffer, bodies[0]);
    }
  }

  lemma JoinPieces(f1: string, f2: string, b2: string, b1: string, rest: string,
                   cut1: string, cut2: string, b0: string, body: string)
    requires f1 + b1 + cut1 == b0 + body
    requires |f2 + b2| + |cut2| == |b1 + rest| && (cut2 == "" ==> f2 + b2 == b1 + rest)
    ensures |f1 + f2 + b2| + |cut1 + cut2| == |b0 + (body + rest)|
    ensures cut1 + cut2 == "" ==> f1 + f2 + b2 == b0 + (body + rest)
  {
    assert |f1| + |b1| + |cut1| == |b0| + |body|;
    if cut1 == "" && cut2 == "" {
      assert f1 + b1 == b0 + body;
      ConcatAssociative(f1, f2, b2);
      ConcatAssociative(f1, b1, rest);
      ConcatAssociative(b0, body, rest);
    }
  }

  /** How much of `size` bytes stays in the buffer when every full frame is sent off. */
  function Fill(size: nat, frame: nat): (r: nat)
    requires 0 < frame
    ensures r < frame
  {
    if size < frame then size else Fill(size - frame, frame)
  }

  /** Whether every piece fits the frames left to it, when `fill` bytes are in the buffer. */
  predicate NoneIsCut(fill: nat, bodies: seq<string>, frame: nat)
    requires 0 < frame
    decreases bodies
  {
    bodies == [] ||
    (fill + |bodies[0]| <= 32 * frame
      && NoneIsCut(if bodies[0] == "" then fill else Fill(fill + |bodies[0]|, frame), bodies[1..], frame))
  }

  /** How full the buffer is after a piece that was reached to its end. */
  lemma {:induction false} StreamFill(buffer: string, body: string, frame: nat, rounds: nat)
    requires |buffer| <= frame && 0 < frame && body != "" && |body| <= Capacity(buffer, frame, rounds)
    ensures |Stream(buffer, body, frame, rounds).buffer| == Fill(|buffer| + |body|, frame)
    decreases rounds
  {
    var n := Least(|body|, frame - |buffer|);
    if |buffer| + |body| < frame {
      assert body[n..] == "";
      NothingToStream(buffer + body[..n], frame, rounds - 1);
    } else if |buffer| + |body| == frame {
      assert body[n..] == "";
      NothingToStream("", frame, rounds - 1);
    } else {
      CapacityStep(buffer, frame, rounds);
      StreamFill("", body[n..], frame, rounds - 1);
    }
  }

  lemma {:induction false} NoneIsCutIff(buffer: string, bodies: seq<string>, frame: nat)
    requires |buffer| <= frame && 0 < frame
    ensures Pieces(buffer, bodies, frame).rest == "" <==> NoneIsCut(|buffer|, bodies, frame)
    decreases bodies
  {
    if bodies != [] {
      var first := Stream(buffer, bodies[0], frame, MAX_FRAMES);
      StreamConserves(buffer, bodies[0], frame, MAX_FRAMES);
      if bodies[0] != "" && first.rest == "" {
        StreamFill(buffer, bodies[0], frame, MAX_FRAMES);
      }
      NoneIsCutIff(first.buffer, bodies[1..], frame);
    }
  }

  /** Pieces of at most 31 frames are never cut. */
  lemma {:induction false} ShortPiecesFit(fill: nat, bodies: seq<string>, frame: nat)
    requires fill <= frame && 0 < frame && forall k :: 0 <= k < |bodies| ==> |bodies[k]| <= 31 * frame
    ensures NoneIsCut(fill, bodies, frame)
    decreases bodies
  {
    if bodies != [] {
      ShortPiecesFit(if bodies[0] == "" then fill else Fill(fill + |bodies[0]|, frame), bodies[1..], frame);
    }
  }

  // ---------------------------------------------------------------- the whole response

  /** Everything in front of the body. */
  function Head(version: string, status: string, headers: seq<Header>): string {
    version + " " + status + "\r\n" + HeaderLines(headers) + "\r\n"
  }

  function ResponseMessage(version: string, status: string, headers: seq<Header>, bodies: seq<string>): string {
    Head(version, status, headers) + Flatten(bodies)
  }

  /** All frames of a response, the buffer sent at the end included. */
  function Frames(head: string, bodies: seq<string>, frame: nat): seq<string>
    requires |head| <= frame
  {
    Pieces(head, bodies, frame).frames + [Pieces(head, bodies, frame).buffer]
  }

  /** Whether a response arrives: the head leaves a free byte in the buffer (or fills it and there is
      no body), no piece is too long for the frames left to it, and the stack takes every byte. */
  predicate Arrives(capacity: nat, attempts: seq<Attempt>, head: string, bodies: seq<string>) {
    if |head| < capacity then
      && 1 < capacity && NoneIsCut(|head|, bodies, capacity - 1)
      && AllAccepted(Link("", attempts), Frames(head, bodies, capacity - 1))
    else |head| == capacity && Flatten(bodies) == "" && AllAccepted(Link("", attempts), [head])
  }

  /** So a response arrives if its head fits, no piece is longer than 31 frames, fewer than ten writes
      are refused and the stack has a byte of space for every byte. */
  lemma CapableArrives(capacity: nat, attempts: seq<Attempt>, head: string, bodies: seq<string>)
    requires 0 < |head| < capacity && Capable(attempts, 10, |head + Flatten(bodies)|)
    requires forall k :: 0 <= k < |bodies| ==> |bodies[k]| <= 31 * (capacity - 1)
    ensures Arrives(capacity, attempts, head, bodies)
  {
    ShortPiecesFit(|head|, bodies, capacity - 1);
    FramesAreMessage(head, bodies, capacity - 1);
    CapableSends(Link("", attempts), Frames(head, bodies, capacity - 1));
    SentIsAccepted(Link("", attempts), Frames(head, bodies, capacity - 1));
  }

  lemma FramesAreMessage(head: string, bodies: seq<string>, frame: nat)
    requires |head| <= frame && 0 < frame && NoneIsCut(|head|, bodies, frame)
    ensures Flatten(Frames(head, bodies, frame)) == head + Flatten(bodies)
  {
    var r := Pieces(head, bodies, frame);
    NoneIsCutIff(head, bodies, frame);
    PiecesConserve(head, bodies, frame);
    FlattenConcat(r.frames, [r.buffer]);
    assert Flatten([r.buffer]) == r.buffer;
  }

  /** The life of a response as in `process_request`: status line, headers and body pieces from the
      endpoint, then the empty line if there was no body, and the buffer. On any network the client
      gets exactly this message if and only if it `Arrives`, however often the body was streamed out
      on the way and however often a write was refused. */
  method ResponseOnWire(capacity: nat, attempts: seq<Attempt>, version: string, status: string,
                        headers: seq<Header>, bodies: seq<string>) returns (wire: string)
    requires 0 < capacity
    ensures wire == ResponseMessage(version, status, headers, bodies)
       <==> Arrives(capacity, attempts, Head(version, status, headers), bodies)
  {
    var connection := new Connection(attempts);
    var response := new MessageBuffer(capacity, connection);
    var aborted := WriteHead(response, version, status, headers);
    if aborted {
      return "";
    }
    ghost var head, start := Head(version, status, headers), response.BodyStart();
    aborted := WriteBodies(response, bodies);
    if aborted {
      return connection.link.wire;
    }
    var _ := connection.SendData(response.buffer);
    wire := connection.link.wire;
    if |start| < capacity {
      FittingHead(capacity, attempts, head, bodies);
    } else {
      FullHead(attempts, head, start, bodies);
    }
  }

  lemma FittingHead(capacity: nat, attempts: seq<Attempt>, head: string, bodies: seq<string>)
    requires 0 < |head| < capacity
    ensures var sent := Responding(Link("", attempts), head, bodies, capacity - 1);
      Send(sent.0, sent.1).wire == head + Flatten(bodies) <==> Arrives(capacity, attempts, head, bodies)
  {
    FitArrives(capacity, Link("", attempts), head, bodies);
    FittingFrames(Link("", attempts), head, bodies, capacity - 1);
  }

  lemma FitArrives(capacity: nat, l: Link, head: string, bodies: seq<string>)
    requires 0 < |head| < capacity && l.wire == ""
    ensures Pieces(head, bodies, capacity - 1).rest == "" && AllAccepted(l, Frames(head, bodies, capacity - 1))
       <==> Arrives(capacity, l.attempts, head, bodies)
  {
    NoneIsCutIff(head, bodies, capacity - 1);
    assert l == Link("", l.attempts);
  }

  lemma FittingFrames(l: Link, head: string, bodies: seq<string>, frame: nat)
    requires |head| <= frame && l.wire == ""
    ensures var r := Pieces(head, bodies, frame);
      Send(SendFrames(l, r.frames), r.buffer).wire == head + Flatten(bodies)
      <==> r.rest == "" && AllAccepted(l, Frames(head, bodies, frame))
  {
    var r := Pieces(head, bodies, frame);
    AndTheBuffer(l, r.frames, r.buffer);
    PiecesConserve(head, bodies, frame);
    WholeMessage(Send(SendFrames(l, r.frames), r.buffer).wire, Flatten(r.frames) + r.buffer, r.rest,
                 head + Flatten(bodies), AllAccepted(l, Frames(head, bodies, frame)));
  }

  /** A message is on the wire when all of what was sent is and nothing was cut off it before. */
  lemma WholeMessage(wire: string, sent: string, cut: string, message: string, accepted: bool)
    requires (wire == sent <==> accepted) && |wire| <= |sent|
    requires |sent| + |cut| == |message| && (cut == "" ==> sent == message)
    ensures wire == message <==> cut == "" && accepted
  {
  }

  /** The buffer goes out as one more frame. */
  lemma AndTheBuffer(l: Link, frames: seq<string>, buffer: string)
    requires l.wire == ""
    ensures var wire := Send(SendFrames(l, frames), buffer).wire;
      && (wire == Flatten(frames) + buffer <==> AllAccepted(l, frames + [buffer]))
      && |wire| <= |Flatten(frames) + buffer|
  {
    var all := frames + [buffer];
    SendFramesConcat(l, frames, [buffer]);
    FlattenConcat(frames, [buffer]);
    assert Flatten([buffer]) == buffer;
    OnWireIff(l, all);
    assert l.wire + Flatten(all) == Flatten(all);
  }

  lemma FullHead(attempts: seq<Attempt>, head: string, start: string, bodies: seq<string>)
    requires |start| <= |head| && (|start| == |head| ==> start == head)
    ensures Send(Link("", attempts), start).wire == head + Flatten(bodies)
       <==> |start| == |head| && Flatten(bodies) == "" && AllAccepted(Link("", attempts), [head])
  {
    OnWireIff(Link("", attempts), [start]);
    assert Flatten([start]) == start;
    assert SendFrames(Link("", attempts), [start]) == Send(Link("", attempts), start);
  }

  /** Status line and headers. Unless it aborts, what does not fit leaves the buffer full. */
  method WriteHead(response: MessageBuffer, version: string, status: string, headers: seq<Header>)
    returns (aborted: bool)
    requires response.Valid() && response.buffer == "" && response.body == None && !response.onStreamOut
    modifies response
    ensures response.Valid() && response.body == None
    ensures var head := Head(version, status, headers);
      if |head| <= response.N then !aborted && response.BodyStart() == head
      else aborted || |response.BodyStart()| == response.N
  {
    response.SetStatusLine(version, status);
    aborted := WriteHeaders(response, headers);
    HeadWritten(version + " " + status + CRLF, HeaderLines(headers), response.buffer, response.N);
  }

  lemma HeadWritten(line: string, lines: string, buffer: string, n: nat)
    requires |buffer| <= n
    ensures var cut, start := Appended("", line, n), Appended(buffer, CRLF, n);
      (if |cut| + |lines| <= n then buffer == cut + lines else |buffer| == n) ==>
      if |line + lines + CRLF| <= n then start == line + lines + CRLF else |start| == n
  {
  }

  method WriteHeaders(response: MessageBuffer, headers: seq<Header>) returns (aborted: bool)
    requires response.Valid() && response.body == None && !response.onStreamOut
    modifies response
    ensures response.Valid() && response.body == None && !response.onStreamOut
    ensures if |old(response.buffer)| + |HeaderLines(headers)| <= response.N
            then !aborted && response.buffer == old(response.buffer) + HeaderLines(headers)
            else aborted || |response.buffer| == response.N
  {
    ghost var line := response.buffer;
    assert headers[0..] == headers;
    aborted := false;
    for k := 0 to |headers|
      invariant response.Valid() && response.body == None && !response.onStreamOut && !aborted
      invariant Writing(response.buffer, headers[k..], line, headers, response.N)
    {
      assert headers[k..][1..] == headers[k + 1..];
      HeaderWritten(response.buffer, headers[k..], line, headers, response.N);
      var stored;
      stored, aborted := response.AddHeader(headers[k]);
      if aborted {
        return;
      }
    }
  }

  /** The header lines still to come complete the buffer, or it is full already. */
  ghost predicate Writing(buffer: string, rest: seq<Header>, line: string, headers: seq<Header>, n: nat) {
    |line| <= n &&
    if |line| + |HeaderLines(headers)| <= n then buffer + HeaderLines(rest) == line + HeaderLines(headers)
    else |buffer| + |HeaderLines(rest)| > n || |buffer| == n
  }

  lemma HeaderWritten(buffer: string, rest: seq<Header>, line: string, headers: seq<Header>, n: nat)
    requires |buffer| <= n && rest != [] && Writing(buffer, rest, line, headers, n)
    ensures |line| + |HeaderLines(headers)| <= n ==> |buffer| + |rest[0].key| + 2 <= n
    ensures Writing(Appended(buffer, HeaderLine(rest[0]), n), rest[1..], line, headers, n)
  {
    ConcatAssociative(buffer, HeaderLine(rest[0]), HeaderLines(rest[1..]));
  }

  /** The connection and the buffer after all body pieces. */
  function Responding(l: Link, buffer: string, bodies: seq<string>, frame: nat): (Link, string)
    requires |buffer| <= frame
  {
    (SendFrames(l, Pieces(buffer, bodies, frame).frames), Pieces(buffer, bodies, frame).buffer)
  }

  lemma RespondingStep(l: Link, buffer: string, bodies: seq<string>, frame: nat)
    requires |buffer| <= frame && bodies != []
    ensures var next := Streaming(l, buffer, bodies[0], frame, MAX_FRAMES);
      Responding(l, buffer, bodies, frame) == Responding(next.0, next.1, bodies[1..], frame)
  {
    var first := Stream(buffer, bodies[0], frame, MAX_FRAMES);
    SendFramesConcat(l, first.frames, Pieces(first.buffer, bodies[1..], frame).frames);
  }

  /** The endpoint's body pieces, one after the other, or the empty line alone. */

  /** The pieces still to come take connection and buffer where all pieces take them from `start`. A
      full buffer stays as it is. */
  ghost predicate Underway(response: MessageBuffer, rest: seq<string>, l: Link, start: string, bodies: seq<string>)
    reads response, response.connection
  {
    response.Valid() && |start| <= response.N &&
    if |start| == response.N then
      response.connection.link == l && response.BodyStart() == start && Flatten(rest) == Flatten(bodies)
    else
      |response.BodyStart()| < response.N &&
      Responding(response.connection.link, response.BodyStart(), rest, response.N - 1)
      == Responding(l, start, bodies, response.N - 1)
  }

  /** The endpoint's body pieces, one after the other, or the empty line alone. */
  method WriteBodies(response: MessageBuffer, bodies: seq<string>) returns (aborted: bool)
    requires response.Valid() && response.body == None
    modifies response, response.connection
    ensures response.Valid()
    ensures aborted <==> |old(response.BodyStart())| == response.N && Flatten(bodies) != ""
    ensures (response.connection.link, response.buffer) ==
      if |old(response.BodyStart())| == response.N then (old(response.connection.link), old(response.BodyStart()))
      else Responding(old(response.connection.link), old(response.BodyStart()), bodies, response.N - 1)
  {
    ghost var l, start := response.connection.link, response.BodyStart();
    assert bodies[0..] == bodies;
    aborted := false;
    for k := 0 to |bodies|
      invariant !aborted && Underway(response, bodies[k..], l, start, bodies)
    {
      assert bodies[k..][1..] == bodies[k + 1..];
      aborted := WritePiece(response, bodies[k..], l, start, bodies);
      if aborted {
        return;
      }
    }
    if response.body == None {
      aborted := response.WriteBody("");
    }
  }

  method WritePiece(response: MessageBuffer, rest: seq<string>, ghost l: Link, ghost start: string,
                    ghost bodies: seq<string>)
    returns (aborted: bool)
    requires rest != [] && Underway(response, rest, l, start, bodies)
    modifies response, response.connection
    ensures response.Valid()
    ensures if aborted
            then |start| == response.N && Flatten(bodies) != ""
              && response.connection.link == l && response.buffer == start
            else Underway(response, rest[1..], l, start, bodies)
  {
    if |start| < response.N {
      RespondingStep(response.connection.link, response.BodyStart(), rest, response.N - 1);
    }
    aborted := response.WriteBody(rest[0]);
  }
}
