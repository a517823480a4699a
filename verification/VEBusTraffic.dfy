/** What goes over the line and what comes of it, byte by byte: sync frames are answered, replies are
    handed on, and requests that timed out or were refused go out again. */
module VEBusTraffic {
  import opened Prelude
  import opened VEBusCodec
  import opened VEBusQueue
  import opened VEBusProtocol

  // ---------------------------------------------------------------- sync frames

  /** Ten bytes 83 83 FD n 55 and five more. */
  predicate IsSyncFrame(frame: seq<byte>) {
    |frame| == 10 && frame[0] == 0x83 && frame[1] == 0x83 && frame[2] == 0xFD && frame[4] == 0x55
  }

  /** The frame carries the request under the frame number: as received by the other side, it starts
      98 F7 FA 7E and the number, and the request follows. */
  predicate Carries(frame: seq<byte>, request: seq<byte>, nr: byte) {
    var f := DestuffFrame(frame);
    |f| == 7 + |request| && f[..5] == [0x98, 0xF7, 0xFA, 0x7E, nr] && f[5..5 + |request|] == request
  }

  function Following(nr: byte): byte { if nr % 128 == 127 then 0 else nr % 128 + 1 }

  /** A sync frame is answered by one frame, with the number after the sync frame's own, that carries
      the first request not sent yet. The request is marked sent, or gone if it waits for nothing. */
  lemma {:induction false} SyncIsAnswered(s: State, frame: seq<byte>, now: Millis, k: nat)
    requires IsSyncFrame(frame)
    requires k < |s.queue| && !s.queue[k].isSent && forall j :: 0 <= j < k ==> s.queue[j].isSent
    ensures var s', d := Next(s, Receive(frame, now)), s.queue[k];
      && |s'.sent| == |s.sent| + 1 && s'.sent[..|s.sent|] == s.sent
      && Carries(s'.sent[|s.sent|], d.requestData, Following(frame[3]))
      && (if d.responseExpected
          then s'.queue == s.queue[k := d.(isSent := true, sentTimeMs := now, transmissions := d.transmissions + 1)]
          else multiset(s'.queue) == multiset(s.queue) - multiset{d})
  {
    SyncStep(s, frame, now, k);
    WireFrameCarries(s.queue[k].requestData, frame[3]);
    FirstIsTransmitted(s.queue, now, k);
  }

  lemma SyncStep(s: State, frame: seq<byte>, now: Millis, k: nat)
    requires IsSyncFrame(frame)
    requires k < |s.queue| && !s.queue[k].isSent && forall j :: 0 <= j < k ==> s.queue[j].isSent
    ensures FirstUnsent(s.queue) == k
    ensures Next(s, Receive(frame, now)) ==
      s.(queue := Transmit(s.queue, now), sent := s.sent + [WireFrame(s.queue[k].requestData, frame[3])],
         syncs := s.syncs + 1)
  {
    assert FirstUnsent(s.queue) == k && Decode(frame) == Sync;
  }

  lemma WireFrameCarries(request: seq<byte>, nr: byte)
    ensures Carries(WireFrame(request, nr), request, Following(nr))
  {
    WireFrameReceived(request, nr);
    var f, start := DestuffFrame(WireFrame(request, nr)), [0x98, 0xF7, 0xFA, 0x7E, NextFrameNr(nr)];
    var trailer := [ReceivedChecksum(SentChecksum(request, nr)), END_OF_FRAME];
    assert f == start + request + trailer;
  }

  lemma FirstIsTransmitted(q: seq<Data>, now: Millis, k: nat)
    requires k < |q| && FirstUnsent(q) == k
    ensures var d := q[k];
      if d.responseExpected
      then Transmit(q, now) == q[k := d.(isSent := true, sentTimeMs := now, transmissions := d.transmissions + 1)]
      else multiset(Transmit(q, now)) == multiset(q) - multiset{d}
  {
    SwapRemoveMultiset(q[k := Sent(q[k], now)], k);
    UpdateMultiset(q, k, Sent(q[k], now));
  }

  lemma UpdateMultiset(q: seq<Data>, k: nat, d: Data)
    requires k < |q|
    ensures multiset(q[k := d]) == multiset(q) - multiset{q[k]} + multiset{d}
  {
    assert q == q[..k] + [q[k]] + q[k + 1..];
    assert q[k := d] == q[..k] + [d] + q[k + 1..];
  }

  /** Nothing is ever sent but in answer to a sync frame, with a request waiting. */
  lemma SentOnlyOnSync(s: State, step: Step)
    ensures Next(s, step).sent != s.sent ==>
      && step.Receive? && IsSyncFrame(step.frame)
      && exists k :: 0 <= k < |s.queue| && !s.queue[k].isSent
    ensures step.Receive? && IsSyncFrame(step.frame) && (forall k :: 0 <= k < |s.queue| ==> s.queue[k].isSent) ==>
      Next(s, step) == s.(syncs := s.syncs + 1)
  {
    if step.Receive? && step.frame != [] && Decode(step.frame) == Sync {
      var i := FirstUnsent(s.queue);
      if i == |s.queue| {
        assert s.sent + [] == s.sent;
      } else {
        assert !s.queue[i].isSent;
      }
    } else if step.Receive? {
      assert s.sent + [] == s.sent;
    }
  }

  // ---------------------------------------------------------------- replies

  /** At least six bytes 83 83 FE n 00 and the id of the request. */
  predicate IsReply(frame: seq<byte>, id: byte) {
    |frame| >= 6 && frame[0] == 0x83 && frame[1] == 0x83 && frame[2] == 0xFE && frame[4] == 0x00 && frame[5] == id
  }

  /** A reply is stored in the first entry with its id, and nothing else changes. */
  lemma ReplyIsStored(s: State, frame: seq<byte>, id: byte, now: Millis, k: nat)
    requires IsReply(frame, id)
    requires k <= |s.queue| && (k < |s.queue| ==> s.queue[k].id == id) && forall j :: 0 <= j < k ==> s.queue[j].id != id
    ensures Next(s, Receive(frame, now))
         == if k < |s.queue| then s.(queue := s.queue[k := s.queue[k].(responseData := frame)]) else s
  {
    assert FindId(s.queue, id) == k && Decode(frame) == Response;
    assert s.sent + [] == s.sent;
  }

  /** Any other frame is without effect. */
  lemma OthersChangeNothing(s: State, frame: seq<byte>, now: Millis)
    requires !IsSyncFrame(frame) && forall id: byte :: !IsReply(frame, id)
    ensures Next(s, Receive(frame, now)) == s
  {
    assert |frame| >= 6 ==> !IsReply(frame, frame[5]);
    assert s.sent + [] == s.sent;
  }

  /** A pass handles the last stored response. With the expected code, its seventh byte, it is handed
      on. With another one the request is marked to be sent again, three times in all; then it goes.
      What goes is the entry itself or, if it is the last of several, the one in slot 0. */
  lemma ResponseIsHandled(s: State, now: Millis, k: nat)
    requires k < |s.queue| && |s.queue[k].responseData| > 6
    requires forall j :: k < j < |s.queue| ==> s.queue[j].responseData == []
    ensures var s', d := Next(s, Respond(now)), s.queue[k];
      var lost := if k == |s.queue| - 1 then s.queue[0] else d;
      && s'.sent == s.sent && s'.requester == s.requester && s'.lastId == s.lastId
      && s'.completed == (if d.responseData[6] == d.expectedResponseCode then s.completed + [d] else s.completed)
      && (if d.responseData[6] != d.expectedResponseCode && d.resendCount < 3
          then s'.queue == s.queue[k := d.(isSent := false, sentTimeMs := now, resendCount := d.resendCount + 1)]
          else multiset(s'.queue) == multiset(s.queue) - multiset{lost})
  {
    assert LastResponse(s.queue) == k;
    SwapRemoveMultiset(s.queue, if k == |s.queue| - 1 then 0 else k);
  }

  /** A pass over a queue without responses changes nothing. */
  lemma NoResponseNoChange(s: State, now: Millis)
    requires forall j :: 0 <= j < |s.queue| ==> s.queue[j].responseData == []
    ensures Next(s, Respond(now)) == s
  {
    assert LastResponse(s.queue) == |s.queue|;
  }

  /** In every reachable state, for every frame number, code and payload: a reply with the id and the
      expected code of a queued request is handed on with this request by the next pass, unless a
      later entry holds a response too. */
  lemma {:induction false} ReplyIsDelivered(lastId: byte, steps: seq<Step>, k: nat, nr: byte, payload: seq<byte>,
                         receivedAt: Millis, checkedAt: Millis)
    requires var q := Run(Init(lastId), steps).queue;
      && k < |q| && q[k].id != 0 && forall j :: k < j < |q| ==> q[j].responseData == []
    ensures var s := Run(Init(lastId), steps);
      var d := s.queue[k];
      var reply := [0x83, 0x83, 0xFE, nr, 0x00, d.id, d.expectedResponseCode] + payload;
      Next(Next(s, Receive(reply, receivedAt)), Respond(checkedAt)).completed
      == s.completed + [d.(responseData := reply)]
  {
    RunKeepsInv(Init(lastId), steps);
    var s := Run(Init(lastId), steps);
    var d := s.queue[k];
    var reply := [0x83, 0x83, 0xFE, nr, 0x00, d.id, d.expectedResponseCode] + payload;
    forall j | 0 <= j < k
      ensures s.queue[j].id != d.id
    {
      assert Apart(s.queue[j], d);
    }
    ReplyIsStored(s, reply, d.id, receivedAt, k);
    ResponseIsHandled(Next(s, Receive(reply, receivedAt)), checkedAt, k);
  }
}
