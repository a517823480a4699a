/** A request that waits is sent: a new one, one that timed out, and one that was refused. */
module VEBusRetry {
  import opened Prelude
  import opened VEBusCodec
  import opened VEBusQueue
  import opened VEBusProtocol
  import opened VEBusProgress
  import opened VEBusFate
  import opened VEBusRequests
  import opened VEBusTraffic

  // ---------------------------------------------------------------- what a timeout pass does to an entry

  /** `e` is in the queue, and no other entry has its key. */
  ghost predicate IsTheEntry(q: seq<Data>, e: Data) {
    exists k :: 0 <= k < |q| && q[k] == e && forall j :: 0 <= j < |q| && SameKey(q[j], e) ==> j == k
  }

  lemma {:induction false} VerdictIsIn(q: seq<Data>, readings: seq<Reading>, k: nat)
    requires k < |q| <= |readings| && Examine(q[k], readings[k]).Some?
    ensures Examine(q[k], readings[k]).value in Judged(q, readings)
  {
    var n := |q| - 1;
    if k < n {
      VerdictIsIn(q[..n], readings, k);
    }
  }

  /** What a pass with these clock readings makes of the entry `d`. */
  ghost predicate FairlyJudged(d: Data, r: Reading, q: seq<Data>) {
    var age := (r.test - d.sentTimeMs) % 0x1_0000_0000;
    if age < 10000 then IsTheEntry(q, d)
    else if d.resendCount < 3 then IsTheEntry(q, Marked(d, r.stamp))
    else !HasKey(q, d)
  }

  /** To be sent again, with its resends one higher. */
  function Marked(d: Data, now: Millis): Data {
    d.(isSent := false, sentTimeMs := now, resendCount := d.resendCount + 1)
  }

  /** In every reachable state, a pass leaves an entry alone that was sent, queued or marked less than
      10000 ms ago, on the 32-bit clock. It marks an older one to be sent again, with its resends one
      higher and the time of the marking, up to three times; after that it takes it out. */
  lemma {:induction false} TimeoutJudges(lastId: byte, steps: seq<Step>, readings: seq<Reading>, k: nat)
    requires k < |Run(Init(lastId), steps).queue| <= |readings|
    ensures var s := Run(Init(lastId), steps);
      && Next(s, Timeout(readings)) == s.(queue := TimeoutPass(s.queue, readings))
      && FairlyJudged(s.queue[k], readings[k], TimeoutPass(s.queue, readings))
  {
    RunKeepsInv(Init(lastId), steps);
    PassJudges(Run(Init(lastId), steps).queue, readings, k);
  }

  lemma PassJudges(q: seq<Data>, readings: seq<Reading>, k: nat)
    requires QueueInv(q) && k < |q| <= |readings|
    ensures FairlyJudged(q[k], readings[k], TimeoutPass(q, readings))
  {
    if Examine(q[k], readings[k]).Some? {
      KeptOrMarked(q, readings, k);
    } else {
      FateOfTimeout(q, |q|, readings, k);
    }
    ExaminedFairly(q[k], readings[k], TimeoutPass(q, readings));
  }

  lemma ExaminedFairly(d: Data, r: Reading, after: seq<Data>)
    requires match Examine(d, r) case Some(e) => IsTheEntry(after, e) case None => !HasKey(after, d)
    ensures FairlyJudged(d, r, after)
  {
  }

  lemma KeptOrMarked(q: seq<Data>, readings: seq<Reading>, k: nat)
    requires QueueInv(q) && k < |q| <= |readings| && Examine(q[k], readings[k]).Some?
    ensures IsTheEntry(TimeoutPass(q, readings), Examine(q[k], readings[k]).value)
  {
    var e := Examine(q[k], readings[k]).value;
    VerdictIsIn(q, readings, k);
    TimeoutPassJudgesEachOnce(q, readings);
    assert e in multiset(Judged(q, readings)) && e in multiset(TimeoutPass(q, readings));
    TimeoutKeepsInv(q, |q|, readings);
    TheOnlyOne(TimeoutPass(q, readings), e);
  }

  lemma TheOnlyOne(q: seq<Data>, e: Data)
    requires PairwiseApart(q) && e in q
    ensures IsTheEntry(q, e)
  {
    var k :| 0 <= k < |q| && q[k] == e;
    forall j | 0 <= j < |q| && SameKey(q[j], e)
      ensures j == k
    {
      SameSlot(q, j, k);
    }
  }

  // ---------------------------------------------------------------- what sync frames do to the waiting ones

  function One(d: Data): nat { if d.isSent then 0 else 1 }

  /** How many entries wait to be sent. */
  function Waiting(q: seq<Data>): nat {
    if q == [] then 0 else One(q[0]) + Waiting(q[1..])
  }

  lemma {:induction false} WaitingAtMost(q: seq<Data>)
    ensures Waiting(q) <= |q|
  {
    if q != [] {
      WaitingAtMost(q[1..]);
    }
  }

  lemma {:induction false} WaitingConcat(a: seq<Data>, b: seq<Data>)
    ensures Waiting(a + b) == Waiting(a) + Waiting(b)
  {
    if a == [] {
      assert a + b == b;
    } else {
      WaitingConcat(a[1..], b);
      assert (a + b)[0] == a[0] && (a + b)[1..] == a[1..] + b;
    }
  }

  lemma {:induction false} WaitingUpdate(q: seq<Data>, i: nat, d: Data)
    requires i < |q|
    ensures Waiting(q[i := d]) == Waiting(q) - One(q[i]) + One(d)
    ensures Waiting(q) >= One(q[i])
  {
    assert q == q[..i] + ([q[i]] + q[i + 1..]) && q[i := d] == q[..i] + ([d] + q[i + 1..]);
    WaitingConcat(q[..i], [q[i]] + q[i + 1..]);
    WaitingConcat(q[..i], [d] + q[i + 1..]);
  }

  lemma {:induction false} WaitingRemove(q: seq<Data>, i: nat)
    requires i < |q|
    ensures Waiting(SwapRemove(q, i)) == Waiting(q) - One(q[i])
  {
    var n := |q| - 1;
    var moved := q[i := q[n]];
    WaitingUpdate(q, i, q[n]);
    WaitingLast(moved);
    MovedLast(q, i);
  }

  lemma MovedLast(q: seq<Data>, i: nat)
    requires i < |q|
    ensures var n, moved := |q| - 1, q[i := q[|q| - 1]]; moved[..n] == SwapRemove(q, i) && moved[n] == q[n]
  {
  }

  lemma {:induction false} WaitingLast(q: seq<Data>)
    requires q != []
    ensures Waiting(q) == Waiting(q[..|q| - 1]) + One(q[|q| - 1])
  {
    var n := |q| - 1;
    assert q == q[..n] + [q[n]] && [q[n]][1..] == [];
    WaitingConcat(q[..n], [q[n]]);
  }

  /** The same entry, but for a response stored in between. */
  predicate Alike(a: Data, b: Data) {
    a.(responseData := []) == b.(responseData := [])
  }

  lemma StillThere(q: seq<Data>, i: nat, k: nat)
    requires i < |q| && k < |q| && i != k
    ensures q[k] in SwapRemove(q, i)
  {
    var q' := SwapRemove(q, i);
    if k < |q| - 1 {
      assert q'[k] == q[k];
    } else {
      assert q'[i] == q[k];
    }
  }

  /** A received frame leaves an entry alone, but for a response, unless it is the first to be sent. A
      sync frame sends one of the waiting ones. */
  lemma ReceiveLeaves(q: seq<Data>, frame: seq<byte>, now: Millis, k: nat) returns (e: Data)
    requires frame != [] && k < |q|
    requires IsSyncFrame(frame) ==> FirstUnsent(q) != k
    ensures e in Received(q, frame, now) && Alike(e, q[k])
    ensures Waiting(Received(q, frame, now))
         == Waiting(q) - (if IsSyncFrame(frame) && FirstUnsent(q) < |q| then 1 else 0)
  {
    e := q[k];
    if Decode(frame) == Sync {
      var i := FirstUnsent(q);
      if i < |q| {
        var sent := q[i := Sent(q[i], now)];
        WaitingUpdate(q, i, Sent(q[i], now));
        assert sent[k] == q[k];
        if !q[i].responseExpected {
          WaitingRemove(sent, i);
          StillThere(sent, i, k);
        }
      }
    } else if Decode(frame) == Response {
      var i := FindId(q, frame[5]);
      if i < |q| {
        var stored := q[i].(responseData := frame);
        WaitingUpdate(q, i, stored);
        e := q[i := stored][k];
      }
    }
  }

  predicate OnlyReceives(steps: seq<Step>) {
    forall k :: 0 <= k < |steps| ==> steps[k].Receive?
  }

  function SyncCount(steps: seq<Step>): nat {
    if steps == [] then 0
    else (if steps[0].Receive? && IsSyncFrame(steps[0].frame) then 1 else 0) + SyncCount(steps[1..])
  }

  /** An entry that was sent stays as it is while frames come in, but for a response. */
  lemma {:induction false} StaysSent(s: State, steps: seq<Step>, e: Data) returns (e': Data)
    requires OnlyReceives(steps) && e in s.queue && e.isSent
    ensures e' in Run(s, steps).queue && Alike(e', e)
    ensures s.sent <= Run(s, steps).sent
    decreases steps
  {
    if steps == [] {
      e' := e;
    } else {
      var frame, now := steps[0].frame, steps[0].receivedAt;
      var e1 := e;
      if frame != [] {
        var k :| 0 <= k < |s.queue| && s.queue[k] == e;
        e1 := ReceiveLeaves(s.queue, frame, now, k);
      }
      e' := StaysSent(Next(s, steps[0]), steps[1..], e1);
    }
  }

  /** The request of `d` went out between `s` and `t`, once, and is on record as sent if it waits for
      a response. */
  ghost predicate WentOut(s: State, t: State, d: Data) {
    && (exists m, nr: byte :: |s.sent| <= m < |t.sent| && Carries(t.sent[m], d.requestData, nr))
    && (d.responseExpected ==> exists k :: 0 <= k < |t.queue| && OnRecord(t.queue[k], d))
  }

  predicate OnRecord(e: Data, d: Data) {
    && SameRequest(e, d) && e.isSent
    && e.transmissions == d.transmissions + 1 && e.resendCount == d.resendCount
  }

  /** Over any received frames among which there are as many sync frames as there are entries waiting,
      every waiting request goes out. */
  lemma {:induction false} WaitingGoesOut(s: State, steps: seq<Step>, d: Data)
    requires OnlyReceives(steps) && d in s.queue && !d.isSent && Waiting(s.queue) <= SyncCount(steps)
    ensures WentOut(s, Run(s, steps), d)
    ensures s.sent <= Run(s, steps).sent
    decreases steps
  {
    var k :| 0 <= k < |s.queue| && s.queue[k] == d;
    WaitingUpdate(s.queue, k, d);
    if IsSyncFrame(steps[0].frame) && FirstUnsent(s.queue) == k {
      GoesOutNow(s, steps, k);
    } else {
      var s1 := Next(s, steps[0]);
      var d1 := OneLessWaits(s, steps, k);
      WaitingGoesOut(s1, steps[1..], d1);
      SameWent(s, s1, Run(s, steps), d, d1);
    }
  }

  lemma {:induction false} OneLessWaits(s: State, steps: seq<Step>, k: nat) returns (d: Data)
    requires steps != [] && OnlyReceives(steps) && Waiting(s.queue) <= SyncCount(steps)
    requires k < |s.queue| && !s.queue[k].isSent && (IsSyncFrame(steps[0].frame) ==> FirstUnsent(s.queue) != k)
    ensures var s1 := Next(s, steps[0]);
      && d in s1.queue && Alike(d, s.queue[k]) && s.sent <= s1.sent
      && Waiting(s1.queue) <= SyncCount(steps[1..])
  {
    d := s.queue[k];
    if steps[0].frame != [] {
      d := ReceiveLeaves(s.queue, steps[0].frame, steps[0].receivedAt, k);
    }
    assert FirstUnsent(s.queue) < |s.queue|;
  }

  lemma SameWent(s: State, s1: State, t: State, d: Data, d1: Data)
    requires WentOut(s1, t, d1) && Alike(d1, d) && |s.sent| <= |s1.sent|
    ensures WentOut(s, t, d)
  {
    if d.responseExpected {
      var k :| 0 <= k < |t.queue| && OnRecord(t.queue[k], d1);
      assert OnRecord(t.queue[k], d);
    }
  }

  lemma {:induction false} GoesOutNow(s: State, steps: seq<Step>, k: nat)
    requires steps != [] && OnlyReceives(steps) && IsSyncFrame(steps[0].frame)
    requires k < |s.queue| && FirstUnsent(s.queue) == k
    ensures WentOut(s, Run(s, steps), s.queue[k]) && s.sent <= Run(s, steps).sent
  {
    var d, s1, now := s.queue[k], Next(s, steps[0]), steps[0].receivedAt;
    SyncIsAnswered(s, steps[0].frame, now, k);
    var e := Sent(d, now);
    if d.responseExpected {
      assert s1.queue[k] == e;
      var e' := StaysSent(s1, steps[1..], e);
      var k' :| 0 <= k' < |Run(s, steps).queue| && Run(s, steps).queue[k'] == e';
      assert OnRecord(Run(s, steps).queue[k'], d);
    }
    SentGrows(s1, steps[1..]);
    assert Run(s, steps).sent[|s.sent|] == s1.sent[|s.sent|];
  }

  lemma {:induction false} SentGrows(s: State, steps: seq<Step>)
    ensures s.sent <= Run(s, steps).sent
    decreases steps
  {
    if steps != [] {
      SentGrows(Next(s, steps[0]), steps[1..]);
    }
  }

  // ---------------------------------------------------------------- so every waiting request is sent

  /** In every reachable state, an entry that was not sent yet goes out over the next frames received,
      if 16 of them are sync frames. */
  lemma {:induction false} UnsentGoesOut(lastId: byte, before: seq<Step>, k: nat, steps: seq<Step>)
    requires k < |Run(Init(lastId), before).queue| && !Run(Init(lastId), before).queue[k].isSent
    requires OnlyReceives(steps) && SyncCount(steps) >= 16
    ensures var s := Run(Init(lastId), before); WentOut(s, Run(s, steps), s.queue[k])
  {
    var s := Run(Init(lastId), before);
    RunKeepsInv(Init(lastId), before);
    WaitingAtMost(s.queue);
    WaitingGoesOut(s, steps, s.queue[k]);
  }

  /** From the call to the line: a request made in a reachable state with room for it goes out over the
      next frames received, if 16 of them are sync frames, and what the other side reads is what was
      asked. */
  lemma {:induction false} AskedIsHeard(lastId: byte, before: seq<Step>, r: Request, now: Millis, steps: seq<Step>)
    requires var s := Run(Init(lastId), before); s.requester.Chosen? && |s.queue| < 16
    requires OnlyReceives(steps) && SyncCount(steps) >= 16
    ensures var s := Run(Init(lastId), before);
      var t := Run(Next(s, Insert(r, now)), steps);
      exists m :: |s.sent| <= m < |t.sent| && Asks(Payload(DestuffFrame(t.sent[m])), s.requester.id, r)
  {
    var s := Run(Init(lastId), before);
    var s1 := Next(s, Insert(r, now));
    RunKeepsInv(Init(lastId), before);
    NextKeepsInv(s, Insert(r, now));
    RequestIsQueued(s, r, now);
    var k :| 0 <= k < |s1.queue| && IsNew(s1.queue[k], s.requester.id, r, now);
    WaitingAtMost(s1.queue);
    WaitingGoesOut(s1, steps, s1.queue[k]);
    CarriedIsRead(s1, Run(s1, steps), s1.queue[k]);
  }

  lemma CarriedIsRead(s: State, t: State, d: Data)
    requires WentOut(s, t, d)
    ensures exists m :: |s.sent| <= m < |t.sent| && Payload(DestuffFrame(t.sent[m])) == d.requestData
  {
    var m, nr: byte :| |s.sent| <= m < |t.sent| && Carries(t.sent[m], d.requestData, nr);
    assert Payload(DestuffFrame(t.sent[m])) == d.requestData;
  }

  /** In every reachable state, a request whose time is up and that has resends left goes out once
      more over the frames received next, if 16 of them are sync frames. */
  lemma {:induction false} TimedOutGoesOutAgain(lastId: byte, before: seq<Step>, readings: seq<Reading>, k: nat,
                                                steps: seq<Step>)
    requires var q := Run(Init(lastId), before).queue;
      && k < |q| <= |readings| && q[k].resendCount < 3
      && (readings[k].test - q[k].sentTimeMs) % 0x1_0000_0000 >= 10000
    requires OnlyReceives(steps) && SyncCount(steps) >= 16
    ensures var s := Run(Init(lastId), before);
      var t := Run(Next(s, Timeout(readings)), steps);
      WentOut(s, t, s.queue[k].(resendCount := s.queue[k].resendCount + 1))
  {
    RunKeepsInv(Init(lastId), before);
    DueGoesOut(Run(Init(lastId), before), readings, k, steps);
  }

  lemma {:induction false} DueGoesOut(s: State, readings: seq<Reading>, k: nat, steps: seq<Step>)
    requires Inv(s) && k < |s.queue| <= |readings| && s.queue[k].resendCount < 3
    requires (readings[k].test - s.queue[k].sentTimeMs) % 0x1_0000_0000 >= 10000
    requires OnlyReceives(steps) && SyncCount(steps) >= 16
    ensures var t := Run(Next(s, Timeout(readings)), steps);
      WentOut(s, t, s.queue[k].(resendCount := s.queue[k].resendCount + 1))
  {
    MarkedByPass(s, readings, k);
    MarkedGoesOut(s, Next(s, Timeout(readings)), s.queue[k], readings[k].stamp, steps);
  }

  lemma MarkedByPass(s: State, readings: seq<Reading>, k: nat)
    requires Inv(s) && k < |s.queue| <= |readings| && s.queue[k].resendCount < 3
    requires (readings[k].test - s.queue[k].sentTimeMs) % 0x1_0000_0000 >= 10000
    ensures var s1 := Next(s, Timeout(readings));
      Marked(s.queue[k], readings[k].stamp) in s1.queue && |s1.queue| <= 16 && s1.sent == s.sent
  {
    TimeoutKeepsInv(s.queue, |s.queue|, readings);
    PassJudges(s.queue, readings, k);
    MarkedIfDue(s.queue[k], readings[k], TimeoutPass(s.queue, readings));
  }

  lemma MarkedIfDue(d: Data, r: Reading, after: seq<Data>)
    requires FairlyJudged(d, r, after) && d.resendCount < 3
    requires (r.test - d.sentTimeMs) % 0x1_0000_0000 >= 10000
    ensures Marked(d, r.stamp) in after
  {
  }

  lemma {:induction false} MarkedGoesOut(s: State, s1: State, d: Data, now: Millis, steps: seq<Step>)
    requires Marked(d, now) in s1.queue && |s1.queue| <= 16 && s1.sent == s.sent
    requires OnlyReceives(steps) && SyncCount(steps) >= 16
    ensures WentOut(s, Run(s1, steps), d.(resendCount := d.resendCount + 1))
  {
    var e, t := Marked(d, now), Run(s1, steps);
    WaitingAtMost(s1.queue);
    WaitingGoesOut(s1, steps, e);
    if d.responseExpected {
      var k :| 0 <= k < |t.queue| && OnRecord(t.queue[k], e);
      assert OnRecord(t.queue[k], d.(resendCount := d.resendCount + 1));
    }
  }

  /** So does a request whose response had the wrong code, after the pass that finds it. */
  lemma {:induction false} RefusedGoesOutAgain(lastId: byte, before: seq<Step>, now: Millis, k: nat, steps: seq<Step>)
    requires var q := Run(Init(lastId), before).queue;
      && k < |q| && |q[k].responseData| > 6 && q[k].responseData[6] != q[k].expectedResponseCode
      && q[k].resendCount < 3 && forall j :: k < j < |q| ==> q[j].responseData == []
    requires OnlyReceives(steps) && SyncCount(steps) >= 16
    ensures var s := Run(Init(lastId), before);
      var t := Run(Next(s, Respond(now)), steps);
      WentOut(s, t, s.queue[k].(resendCount := s.queue[k].resendCount + 1))
  {
    var s := Run(Init(lastId), before);
    ResponseIsHandled(s, now, k);
    RunKeepsInv(Init(lastId), before);
    NextKeepsInv(s, Respond(now));
    assert Next(s, Respond(now)).queue[k] == Marked(s.queue[k], now);
    MarkedGoesOut(s, Next(s, Respond(now)), s.queue[k], now, steps);
  }
}
