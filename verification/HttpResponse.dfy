/** Writing and streaming out an HTTP response (include/tcp_server/tcp_server.h). */
module HttpResponse {
  import opened Prelude
  import opened StaticTypes
  import opened StringUtil
  import opened HttpRequest

  const RETRIES: nat := 10
  const MAX_FRAMES: nat := 32

  // ---------------------------------------------------------------- send_data

  /** The network stack's answers during one iteration of the send loop. */
  datatype Attempt = Attempt(space: nat, writeOk: bool, outputOk: bool)

  /** `Waiting`: the loop is still going when the answers given end. */
  datatype Status = Sent | Failed | Waiting

  /** How a send ends, how many bytes the stack accepted and which answers are left. */
  datatype Delivery = Delivery(status: Status, accepted: nat, left: seq<Attempt>)

  function Deliver(data: string, attempts: seq<Attempt>, retry: nat): (r: Delivery)
    requires 0 < retry
    ensures r.accepted <= |data| && (r.status == Sent ==> r.accepted == |data|)
    decreases attempts
  {
    if data == "" then Delivery(Sent, 0, attempts)
    else if attempts == [] then Delivery(Waiting, 0, [])
    else
      var a, n := attempts[0], Least(attempts[0].space, |data|);
      if !a.writeOk then
        if retry > 1 then Deliver(data, attempts[1..], retry - 1) else Delivery(Failed, 0, attempts[1..])
      else if !a.outputOk then Delivery(Failed, n, attempts[1..])
      else
        var r := Deliver(data[n..], attempts[1..], retry);
        r.(accepted := n + r.accepted)
  }

  function Least(a: nat, b: nat): nat { if a < b then a else b }

  /** Every write that was accepted could also be flushed out. */
  predicate Flushes(attempts: seq<Attempt>) {
    attempts == [] || ((attempts[0].writeOk ==> attempts[0].outputOk) && Flushes(attempts[1..]))
  }

  /** How many writes were refused. */
  function Refused(attempts: seq<Attempt>): nat {
    if attempts == [] then 0 else (if attempts[0].writeOk then 0 else 1) + Refused(attempts[1..])
  }

  /** How much space the accepted writes had. */
  function Space(attempts: seq<Attempt>): nat {
    if attempts == [] then 0 else (if attempts[0].writeOk then attempts[0].space else 0) + Space(attempts[1..])
  }

  /** The loop is still going after the given answers exactly when none of its three ways out was
      taken: a failed flush, the last refused write, and enough space for all the data. Until then
      it has used all of the space. */
  lemma {:induction false} WaitsIff(data: string, attempts: seq<Attempt>, retry: nat)
    requires 0 < retry
    ensures var r := Deliver(data, attempts, retry);
      && (r.status == Waiting <==> Flushes(attempts) && Refused(attempts) < retry && Space(attempts) < |data|)
      && (r.status == Waiting ==> r == Delivery(Waiting, Space(attempts), []))
    decreases attempts
  {
    if data != "" && attempts != [] {
      var a, left := attempts[0], attempts[1..];
      if !a.writeOk && retry > 1 {
        WaitsIff(data, left, retry - 1);
      } else if a.writeOk && a.outputOk {
        WaitsIff(data[Least(a.space, |data|)..], left, retry);
      }
    }
  }

  /** The first `n` answers give space for `size` bytes before a flush fails or the last write is
      refused. */
  predicate Enough(attempts: seq<Attempt>, n: nat, retry: nat, size: nat) {
    n <= |attempts| && Flushes(attempts[..n]) && Refused(attempts[..n]) < retry && Space(attempts[..n]) >= size
  }

  lemma EnoughShifts(attempts: seq<Attempt>, n: nat, retry: nat, size: nat)
    requires n < |attempts| && 0 < retry
    ensures var a, left := attempts[0], attempts[1..];
      Enough(attempts, n + 1, retry, size)
      <==> if a.writeOk then a.outputOk && Enough(left, n, retry, if size <= a.space then 0 else size - a.space)
           else retry > 1 && Enough(left, n, retry - 1, size)
  {
    assert attempts[..n + 1][1..] == attempts[1..][..n];
  }

  /** The data is sent exactly when some stretch of the answers is enough for it. */
  lemma {:induction false} SentIff(data: string, attempts: seq<Attempt>, retry: nat)
    requires 0 < retry
    ensures Deliver(data, attempts, retry).status == Sent <==> exists n: nat :: Enough(attempts, n, retry, |data|)
    decreases attempts
  {
    if data == "" {
      assert Enough(attempts, 0, retry, 0);
    } else if attempts == [] {
      assert forall n: nat :: n <= 0 ==> !Enough(attempts, n, retry, |data|);
    } else {
      var a, left := attempts[0], attempts[1..];
      var retry' := if a.writeOk then retry else retry - 1;
      var data' := if a.writeOk then data[Least(a.space, |data|)..] else data;
      var goesOn := (a.writeOk ==> a.outputOk) && 0 < retry';
      if 0 < retry' {
        SentIff(data', left, retry');
      }
      if n: nat :| Enough(attempts, n, retry, |data|) {
        assert n > 0;
        EnoughShifts(attempts, n - 1, retry, |data|);
        assert goesOn && Enough(left, n - 1, retry', |data'|);
      }
      if n: nat :| goesOn && Enough(left, n, retry', |data'|) {
        EnoughShifts(attempts, n, retry, |data|);
        assert Enough(attempts, n + 1, retry, |data|);
      }
    }
  }

  lemma {:induction false} SpaceOrRefusal(attempts: seq<Attempt>)
    requires forall k :: 0 <= k < |attempts| ==> attempts[k].space >= 1
    ensures Space(attempts) + Refused(attempts) >= |attempts|
  {
    if attempts != [] {
      SpaceOrRefusal(attempts[1..]);
    }
  }

  /** So the loop ends within `|data| + 9` iterations if each of them reports space for a byte. */
  lemma DeliveryEnds(data: string, attempts: seq<Attempt>, retry: nat)
    requires 0 < retry && |attempts| >= |data| + retry - 1
    requires forall k :: 0 <= k < |attempts| ==> attempts[k].space >= 1
    ensures Deliver(data, attempts, retry).status != Waiting
  {
    WaitsIff(data, attempts, retry);
    SpaceOrRefusal(attempts);
  }

  lemma {:induction false} NoSpace(attempts: seq<Attempt>)
    requires forall k :: 0 <= k < |attempts| ==> attempts[k] == Attempt(0, true, true)
    ensures Flushes(attempts) && Refused(attempts) == Space(attempts) == 0
  {
    if attempts != [] {
      NoSpace(attempts[1..]);
    }
  }

  /** And with no space reported it neither finishes nor fails, however long it runs. */
  lemma NoSpaceNeverEnds(data: string, attempts: seq<Attempt>, retry: nat)
    requires 0 < retry && data != "" && forall k :: 0 <= k < |attempts| ==> attempts[k] == Attempt(0, true, true)
    ensures Deliver(data, attempts, retry) == Delivery(Waiting, 0, [])
  {
    NoSpace(attempts);
    WaitsIff(data, attempts, retry);
  }

  /** The bytes the stack has accepted, and the answers it still has to give. */
  datatype Link = Link(wire: string, attempts: seq<Attempt>)

  function Send(l: Link, data: string): Link {
    SendFrom(l, data, RETRIES).0
  }

  class Connection {
    var link: Link

    constructor (attempts: seq<Attempt>)
      ensures link == Link("", attempts)
    {
      link := Link("", attempts);
    }

    /** `send_data`: what is accepted is always a prefix of the data, and all of it on success. */
    method SendData(data: string) returns (status: Status)
      modifies this
      ensures (link, status) == SendFrom(old(link), data, RETRIES)
    {
      var retry, rest := RETRIES, data;
      while rest != ""
        invariant 0 < retry <= RETRIES
        invariant SendFrom(link, rest, retry) == SendFrom(old(link), data, RETRIES)
        decreases link.attempts
      {
        if link.attempts == [] {
          assert link.wire + rest[..0] == link.wire;
          return Waiting;
        }
        SendStep(link, rest, retry);
        var a := link.attempts[0];
        var freeSpace := Least(a.space, |rest|);
        if !a.writeOk {
          link := Link(link.wire, link.attempts[1..]);
          retry := retry - 1;
          if retry > 0 {
            continue;
          }
          return Failed;
        }
        link := Link(link.wire + rest[..freeSpace], link.attempts[1..]);
        rest := rest[freeSpace..];
        if !a.outputOk {
          return Failed;
        }
      }
      assert link.wire + rest == link.wire;
      return Sent;
    }
  }

  /** The link and the outcome when sending goes on with `rest`. */
  function SendFrom(l: Link, rest: string, retry: nat): (Link, Status)
    requires 0 < retry
  {
    var d := Deliver(rest, l.attempts, retry);
    (Link(l.wire + rest[..d.accepted], d.left), d.status)
  }

  lemma SendStep(l: Link, rest: string, retry: nat)
    requires rest != "" && l.attempts != [] && 0 < retry
    ensures var a, left := l.attempts[0], l.attempts[1..];
      var n := Least(a.space, |rest|);
      SendFrom(l, rest, retry)
      == if !a.writeOk then
           if retry > 1 then SendFrom(Link(l.wire, left), rest, retry - 1) else (Link(l.wire, left), Failed)
         else if !a.outputOk then (Link(l.wire + rest[..n], left), Failed)
         else SendFrom(Link(l.wire + rest[..n], left), rest[n..], retry)
  {
    var a, left := l.attempts[0], l.attempts[1..];
    var n := Least(a.space, |rest|);
    assert l.wire + rest[..0] == l.wire;
    if a.writeOk && a.outputOk {
      var d := Deliver(rest[n..], left, retry);
      assert rest[..n + d.accepted] == rest[..n] + rest[n..][..d.accepted];
      ConcatAssociative(l.wire, rest[..n], rest[n..][..d.accepted]);
    }
  }

  // ---------------------------------------------------------------- res_write_body

  /** What up to `rounds` iterations do to the buffer and the rest of a body: the frames sent on
      the way, the buffer and the part of the body not reached. */
  datatype Streamed = Streamed(frames: seq<string>, buffer: string, rest: string)

  function Stream(buffer: string, body: string, frame: nat, rounds: nat): (r: Streamed)
    requires |buffer| <= frame
    ensures |r.buffer| <= frame
    decreases |body|, rounds
  {
    if rounds == 0 || body == "" then Streamed([], buffer, body)
    else
      var n := Least(|body|, frame - |buffer|);
      var filled := buffer + body[..n];
      if |filled| == frame then
        var r := Stream("", body[n..], frame, rounds - 1);
        Streamed([filled] + r.frames, r.buffer, r.rest)
      else Stream(filled, body[n..], frame, rounds - 1)
  }

  /** How much of a body 32 iterations reach. */
  function Capacity(buffer: string, frame: nat, rounds: nat): nat
    requires |buffer| <= frame
  {
    if rounds == 0 then 0 else frame - |buffer| + (rounds - 1) * frame
  }

  /** Nothing is lost, duplicated or reordered: the frames, the buffer and the unreached rest are
      the old buffer and the body. The rest is what exceeds the capacity. */
  lemma {:induction false} StreamConserves(buffer: string, body: string, frame: nat, rounds: nat)
    requires |buffer| <= frame
    ensures var r := Stream(buffer, body, frame, rounds);
      && Flatten(r.frames) + r.buffer + r.rest == buffer + body
      && |r.rest| == if |body| <= Capacity(buffer, frame, rounds) then 0 else |body| - Capacity(buffer, frame, rounds)
    decreases rounds
  {
    if rounds > 0 && body != "" {
      var n := Least(|body|, frame - |buffer|);
      var filled := buffer + body[..n];
      assert filled + body[n..] == buffer + body;
      CapacityStep(buffer, frame, rounds);
      if |filled| == frame {
        StreamConserves("", body[n..], frame, rounds - 1);
        var r := Stream("", body[n..], frame, rounds - 1);
        assert ([filled] + r.frames)[1..] == r.frames;
        assert filled + Flatten(r.frames) + r.buffer + r.rest == filled + (Flatten(r.frames) + r.buffer + r.rest);
        assert "" + body[n..] == body[n..];
      } else {
        StreamConserves(filled, body[n..], frame, rounds - 1);
        assert body[n..] == "";
        NothingToStream(filled, frame, rounds - 1);
      }
    }
  }

  lemma NothingToStream(buffer: string, frame: nat, rounds: nat)
    requires |buffer| <= frame
    ensures Stream(buffer, "", frame, rounds) == Streamed([], buffer, "")
  {
  }

  lemma CapacityStep(buffer: string, frame: nat, rounds: nat)
    requires |buffer| <= frame && 0 < rounds
    ensures Capacity(buffer, frame, rounds) == frame - |buffer| + Capacity("", frame, rounds - 1)
  {
  }

  function SendFrames(l: Link, frames: seq<string>): Link
    decreases frames
  {
    if frames == [] then l else SendFrames(Send(l, frames[0]), frames[1..])
  }

  /** A response under construction. `body` is the view of what was written as body, as its two
      offsets into the buffer; None is the null view. */
  class MessageBuffer {
    const N: nat
    const connection: Connection
    var buffer: string
    var headers: nat
    var body: Option<(int, int)>
    var onStreamOut: bool

    ghost predicate Valid()
      reads this
    {
      0 < N && |buffer| <= N && headers <= MAX_HEADERS
    }

    constructor (capacity: nat, connection: Connection)
      requires 0 < capacity
      ensures Valid() && N == capacity && this.connection == connection
      ensures buffer == "" && headers == 0 && body == None && !onStreamOut
    {
      N, this.connection := capacity, connection;
      buffer, headers, body, onStreamOut := "", 0, None, false;
    }

    /** `res_set_status_line`: whatever was in the buffer is dropped. */
    method SetStatusLine(version: string, status: string)
      requires Valid()
      modifies this
      ensures Valid() && buffer == Appended("", version + " " + status + CRLF, N) && headers == 0
      ensures onStreamOut == old(onStreamOut)
      ensures body == if old(body).Some? && old(body).value.0 != old(body).value.1 then None else old(body)
    {
      if onStreamOut {
        buffer := "";
      }
      if buffer != "" {
        buffer := "";
      }
      headers := 0;
      if body.Some? && body.value.0 != body.value.1 {
        body := None;
      }
      buffer := Appended(buffer, version + " " + status + CRLF, N);
    }

    /** `res_add_header`. The view of the value starts behind the key and colon: when those do not
        fit, taking it aborts. A full header table drops the view, not the text. */
    method AddHeader(h: Header) returns (stored: bool, aborted: bool)
      requires Valid()
      modifies this
      ensures Valid() && buffer == Appended(if old(onStreamOut) then "" else old(buffer), HeaderLine(h), N)
      ensures aborted <==> (if old(onStreamOut) then 0 else |old(buffer)|) + |h.key| + 2 > N
      ensures stored <==> !aborted && old(headers) < MAX_HEADERS
      ensures headers == old(headers) + (if stored then 1 else 0) && onStreamOut == old(onStreamOut)
      ensures body == if old(body).Some? && old(body).value.0 != old(body).value.1 then None else old(body)
    {
      if onStreamOut {
        buffer := "";
      }
      if body.Some? && body.value.0 != body.value.1 {
        body := None;
      }
      var start := |buffer|;
      buffer := Appended(buffer, HeaderLine(h), N);
      if start + |h.key| + 2 > |buffer| {
        return false, true;
      }
      stored, aborted := headers < MAX_HEADERS, false;
      if stored {
        headers := headers + 1;
      }
    }

    /** The buffer a body is appended to: with the empty line in front of the first body. */
    ghost function BodyStart(): string
      reads this
      requires Valid()
    {
      if body == None && !onStreamOut then Appended(buffer, CRLF, N) else buffer
    }

    /** One iteration of `res_write_body`: as much of the body as fits, sent if that fills the frame. */
    method WriteChunk(rest: string) returns (rest': string, outgrown: bool)
      requires Valid() && |buffer| < N && rest != ""
      modifies this`buffer, this`onStreamOut, connection
      ensures Valid() && |buffer| < N
      ensures var n := Least(|rest|, N - 1 - |old(buffer)|);
        var filled := old(buffer) + rest[..n];
        && rest' == rest[n..]
        && buffer == (if |filled| == N - 1 then "" else filled)
        && connection.link == (if |filled| == N - 1 then Send(old(connection.link), filled) else old(connection.link))
      ensures outgrown <==> |rest| > N - 1 - |old(buffer)|
      ensures onStreamOut <==> old(onStreamOut) || outgrown
    {
      var appendSize, f := |rest|, N - 1;
      var m := f - |buffer|;
      outgrown := appendSize > m;
      if outgrown {
        appendSize := m;
        onStreamOut := true;
      }
      buffer := Appended(buffer, rest[..appendSize], N);
      if |buffer| == f {
        var _ := connection.SendData(buffer);
        buffer := "";
      }
      rest' := rest[appendSize..];
    }

    /** `res_write_body`: full frames are sent on the way, whatever comes of it. A buffer without a
        free byte makes the size of the next part negative, and cutting it off aborts. */
    method WriteBody(text: string) returns (aborted: bool)
      requires Valid()
      modifies this, connection
      ensures Valid() && headers == old(headers) && (!aborted ==> body.Some?)
      ensures aborted <==> |old(BodyStart())| == N && text != ""
      ensures (connection.link, buffer) ==
        if |old(BodyStart())| == N then (old(connection.link), old(BodyStart()))
        else Streaming(old(connection.link), old(BodyStart()), text, N - 1, MAX_FRAMES)
    {
      if body == None && !onStreamOut {
        buffer := Appended(buffer, CRLF, N);
      }
      if |buffer| == N {
        aborted := Overfull(text);
        return;
      }
      aborted := false;
      var s := if body == None then |buffer| else body.value.0;
      var outgrown := StreamOut(text);
      body := Some((if outgrown then 0 else s, |buffer|));
    }

    /** The loop of `res_write_body` on a buffer without a free byte. */
    method Overfull(text: string) returns (aborted: bool)
      requires Valid() && |buffer| == N
      modifies this`onStreamOut, this`body
      ensures aborted <==> text != ""
      ensures !aborted ==> body.Some?
    {
      if text != "" {
        onStreamOut := true;
        return true;
      }
      body := Some((if body == None then |buffer| else body.value.0, |buffer|));
      return false;
    }

    /** The loop of `res_write_body`. */
    method StreamOut(text: string) returns (outgrown: bool)
      requires Valid() && |buffer| < N
      modifies this`buffer, this`onStreamOut, connection
      ensures Valid() && |buffer| < N
      ensures (connection.link, buffer) == Streaming(old(connection.link), old(buffer), text, N - 1, MAX_FRAMES)
    {
      var rest, i := text, 0;
      outgrown := false;
      while i < MAX_FRAMES && rest != ""
        invariant i <= MAX_FRAMES && Valid() && |buffer| < N
        invariant Streaming(connection.link, buffer, rest, N - 1, MAX_FRAMES - i)
               == Streaming(old(connection.link), old(buffer), text, N - 1, MAX_FRAMES)
      {
        StreamingStep(connection.link, buffer, rest, N - 1, MAX_FRAMES - i);
        var more;
        rest, more := WriteChunk(rest);
        outgrown, i := outgrown || more, i + 1;
      }
    }
  }

  /** The connection and the buffer after streaming. */
  function Streaming(l: Link, buffer: string, body: string, frame: nat, rounds: nat): (Link, string)
    requires |buffer| <= frame
  {
    var r := Stream(buffer, body, frame, rounds);
    (SendFrames(l, r.frames), r.buffer)
  }

  lemma StreamingStep(l: Link, buffer: string, rest: string, frame: nat, rounds: nat)
    requires |buffer| <= frame && 0 < rounds && rest != ""
    ensures var n := Least(|rest|, frame - |buffer|);
      var filled := buffer + rest[..n];
      Streaming(l, buffer, rest, frame, rounds)
      == if |filled| == frame then Streaming(Send(l, filled), "", rest[n..], frame, rounds - 1)
         else Streaming(l, filled, rest[n..], frame, rounds - 1)
  {
  }
}
