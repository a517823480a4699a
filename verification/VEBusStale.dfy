/** What becomes of a request whose stored response has the wrong code. The response is not cleared
    when the request is marked for a resend, so that every later pass over the responses counts it
    again. */
module VEBusStale {
  import opened Prelude
  import opened VEBusQueue
  import opened VEBusProtocol
  import opened VEBusProgress

  /** The entry holds a response with the wrong code. */
  predicate Stale(d: Data) {
    d.responseData != [] && !Matches(d)
  }

  // ---------------------------------------------------------------- passes in a row

  function Passes(times: seq<Millis>): seq<Step> {
    if times == [] then [] else [Respond(times[0])] + Passes(times[1..])
  }

  /** The entry after it was marked for a resend at each of the times. */
  function Spent(d: Data, times: seq<Millis>): Data
    requires d.resendCount + |times| <= MAX_RESEND
    decreases times
  {
    if times == [] then d else Spent(Resend(d, times[0]), times[1..])
  }

  lemma {:induction false} SpentKeeps(d: Data, times: seq<Millis>)
    requires d.resendCount + |times| <= MAX_RESEND
    ensures Spent(d, times).resendCount == d.resendCount + |times|
    ensures Spent(d, times).responseData == d.responseData
    ensures Spent(d, times).expectedResponseCode == d.expectedResponseCode
    decreases times
  {
    if times != [] {
      SpentKeeps(Resend(d, times[0]), times[1..]);
    }
  }

  /** While resends are left, each pass spends one of them on the same response. Nothing is sent and
      nothing is handed on. */
  lemma {:induction false} PassesSpendResends(s: State, times: seq<Millis>)
    requires LastResponse(s.queue) < |s.queue| && Stale(s.queue[LastResponse(s.queue)])
    requires s.queue[LastResponse(s.queue)].resendCount + |times| <= MAX_RESEND
    ensures var i := LastResponse(s.queue);
      Run(s, Passes(times)) == s.(queue := s.queue[i := Spent(s.queue[i], times)])
    decreases times
  {
    var q, i := s.queue, LastResponse(s.queue);
    if times == [] {
      assert q[i := q[i]] == q;
    } else {
      var d := Resend(q[i], times[0]);
      var s' := Next(s, Respond(times[0]));
      assert s' == s.(queue := q[i := d]);
      SameLastResponse(q, d);
      PassesSpendResends(s', times[1..]);
      assert q[i := d][i := Spent(d, times[1..])] == q[i := Spent(q[i], times)];
      assert Passes(times)[1..] == Passes(times[1..]);
    }
  }

  lemma SameLastResponse(q: seq<Data>, d: Data)
    requires LastResponse(q) < |q| && d.responseData != []
    ensures LastResponse(q[LastResponse(q) := d]) == LastResponse(q)
  {
    var i, q' := LastResponse(q), q[LastResponse(q) := d];
    assert q'[i] == d;
  }

  /** In every reachable state: one wrong response takes its request out of the queue, or the one in
      slot 0 in its place, in as many passes as it has resends left and one more, with nothing sent
      in between. */
  lemma OneWrongResponseRemoves(lastId: byte, steps: seq<Step>, times: seq<Millis>, now: Millis)
    requires var q := Run(Init(lastId), steps).queue;
      LastResponse(q) < |q| && Stale(q[LastResponse(q)]) && |times| == MAX_RESEND - q[LastResponse(q)].resendCount
    ensures var s, i := Run(Init(lastId), steps), LastResponse(Run(Init(lastId), steps).queue);
      && s.queue[i].resendCount + |times| == MAX_RESEND
      && Next(Run(s, Passes(times)), Respond(now)) == s.(queue := PopInto(s.queue[i := Spent(s.queue[i], times)], i))
  {
    var s := Run(Init(lastId), steps);
    var i := LastResponse(s.queue);
    PassesSpendResends(s, times);
    SpentKeeps(s.queue[i], times);
    SameLastResponse(s.queue, Spent(s.queue[i], times));
  }

  // ---------------------------------------------------------------- passes among other steps

  /** Whether `step` brings a response for an entry with this id. */
  predicate Answers(step: Step, id: byte) {
    step.Receive? && step.frame != [] && Decode(step.frame) == Response && step.frame[5] == id
  }

  predicate IsSync(step: Step) {
    step.Receive? && step.frame != [] && Decode(step.frame) == Sync
  }

  /** The entry with the key of `d` is in the queue in every state of the run, and no step of the run
      replaces it or brings a response for its id. */
  predicate NoNews(s: State, steps: seq<Step>, d: Data)
    decreases steps
  {
    && HasKey(s.queue, d)
    && (steps != [] ==>
          && !Replaces(s, steps[0], d) && !Answers(steps[0], d.id)
          && NoNews(Next(s, steps[0]), steps[1..], d))
  }

  /** Whether `step` handles the response of the entry in slot `k`. */
  predicate Handles(q: seq<Data>, k: nat, step: Step) {
    step.Respond? && k == LastResponse(q)
  }

  /** How many passes of the run handle the response of the entry with the key of `d`. */
  function Handled(s: State, steps: seq<Step>, d: Data): nat
    decreases steps
  {
    if steps == [] then 0
    else
      var k := FindKey(s.queue, d);
      (if k < |s.queue| && Handles(s.queue, k, steps[0]) then 1 else 0) + Handled(Next(s, steps[0]), steps[1..], d)
  }

  function Syncs(steps: seq<Step>): nat {
    if steps == [] then 0 else (if IsSync(steps[0]) then 1 else 0) + Syncs(steps[1..])
  }

  /** The entry at a later time: nothing but its bookkeeping has changed, and no resend was won back. */
  predicate Later(e: Data, d: Data) {
    && SameKey(e, d) && e.id == d.id
    && e.responseData == d.responseData && e.expectedResponseCode == d.expectedResponseCode
    && d.resendCount <= e.resendCount <= MAX_RESEND && d.transmissions <= e.transmissions
  }

  /** The resends spent, and one more for having been moved to slot 0. */
  function Score(d: Data, k: nat): nat {
    d.resendCount + (if k > 0 then 0 else 1)
  }

  lemma TransmitAges(q: seq<Data>, now: Millis, k: nat, k': nat)
    requires QueueInv(q) && k < |q| && k' < |Transmit(q, now)| && SameKey(Transmit(q, now)[k'], q[k])
    ensures var e := Transmit(q, now)[k'];
      Later(e, q[k]) && e.transmissions <= q[k].transmissions + 1 && (k' > 0 ==> k > 0)
  {
    var i := FirstUnsent(q);
    assert Sound(q[k]);
    if i == |q| {
      SameSlot(q, k', k);
    } else {
      var sent := q[i := Sent(q[i], now)];
      UpdateKeepsInv(q, i, Sent(q[i], now));
      if q[i].responseExpected {
        SameSlot(sent, k', k);
      } else {
        SurvivorSlot(sent, i, k, k');
      }
    }
  }

  lemma ResponseForOtherAges(q: seq<Data>, frame: seq<byte>, k: nat, k': nat)
    requires QueueInv(q) && |frame| >= 6 && frame[0] == MP_ID_0 && k < |q| && frame[5] != q[k].id
    requires k' < |StoreResponse(q, frame)| && SameKey(StoreResponse(q, frame)[k'], q[k])
    ensures StoreResponse(q, frame)[k'] == q[k] && k' == k
  {
    StoreResponseKeepsInv(q, frame);
    SameSlot(StoreResponse(q, frame), k', k);
  }

  lemma {:induction false} TimeoutAges(q: seq<Data>, i: nat, readings: seq<Reading>, k: nat, k': nat)
    requires QueueInv(q) && i <= |q| && i <= |readings| && k < |q|
    requires k' < |TimeoutFrom(q, i, readings)| && SameKey(TimeoutFrom(q, i, readings)[k'], q[k])
    ensures var e := TimeoutFrom(q, i, readings)[k'];
      Later(e, q[k]) && e.transmissions == q[k].transmissions && (k' > 0 ==> k > 0)
    decreases i
  {
    assert Sound(q[k]);
    if i == 0 {
      SameSlot(q, k', k);
    } else {
      var n := i - 1;
      assert Sound(q[n]);
      if Examine(q[n], readings[n]).Some? {
        UpdateKeepsInv(q, n, Examine(q[n], readings[n]).value);
        TimeoutAges(TimeoutStep(q, n, readings[n]), n, readings, k, k');
      } else {
        var k1 := RemovedSurvivor(q, n, readings, k);
        TimeoutAges(SwapRemove(q, n), n, readings, k1, k');
      }
    }
  }

  lemma PassAges(q: seq<Data>, now: Millis, k: nat, k': nat)
    requires QueueInv(q) && k < |q| && Stale(q[k])
    requires k' < |CheckResponse(q, now)| && SameKey(CheckResponse(q, now)[k'], q[k])
    ensures var e := CheckResponse(q, now)[k'];
      Later(e, q[k]) && e.transmissions == q[k].transmissions
      && Score(q[k], k) + (if LastResponse(q) == k then 1 else 0) <= Score(e, k')
  {
    var i := LastResponse(q);
    assert Sound(q[k]);
    if Matches(q[i]) || q[i].resendCount >= MAX_RESEND {
      SurvivorSlot(q, if i == |q| - 1 then 0 else i, k, k');
    } else {
      UpdateKeepsInv(q, i, Resend(q[i], now));
      SameSlot(q[i := Resend(q[i], now)], k', k);
    }
  }

  /** One step of any task, for a stale entry that stays and hears nothing new. */
  lemma StepAges(s: State, step: Step, k: nat, k': nat)
    requires Inv(s) && k < |s.queue| && Stale(s.queue[k])
    requires !Replaces(s, step, s.queue[k]) && !Answers(step, s.queue[k].id)
    requires k' < |Next(s, step).queue| && SameKey(Next(s, step).queue[k'], s.queue[k])
    ensures var e, d := Next(s, step).queue[k'], s.queue[k];
      && Later(e, d) && e.transmissions <= d.transmissions + (if IsSync(step) then 1 else 0)
      && Score(d, k) + (if Handles(s.queue, k, step) then 1 else 0) <= Score(e, k')
  {
    var q := s.queue;
    assert Sound(q[k]);
    match step
    case ChooseId => SameSlot(q, k', k);
    case Insert(request, now) =>
      if s.requester.Chosen? {
        InsertLeavesAlone(q, Build(request, s.requester.id), now, k, k');
      } else {
        SameSlot(q, k', k);
      }
    case InsertSwitch(switchState, command, address, now) =>
      if s.requester == Idle {
        InsertLeavesAlone(q, BuildSwitch(switchState, command, address), now, k, k');
      } else {
        SameSlot(q, k', k);
      }
    case Receive(frame, now) => ReceiveAges(s, frame, now, k, k');
    case Timeout(readings) =>
      if |q| <= |readings| {
        TimeoutAges(q, |q|, readings, k, k');
      } else {
        SameSlot(q, k', k);
      }
    case Respond(now) => PassAges(q, now, k, k');
  }

  lemma ReceiveAges(s: State, frame: seq<byte>, now: Millis, k: nat, k': nat)
    requires Inv(s) && k < |s.queue| && !Answers(Receive(frame, now), s.queue[k].id)
    requires var after := Next(s, Receive(frame, now)).queue; k' < |after| && SameKey(after[k'], s.queue[k])
    ensures var e, d := Next(s, Receive(frame, now)).queue[k'], s.queue[k];
      && Later(e, d) && (k' > 0 ==> k > 0)
      && e.transmissions <= d.transmissions + (if IsSync(Receive(frame, now)) then 1 else 0)
  {
    var q := s.queue;
    assert Sound(q[k]);
    if frame != [] && Decode(frame) == Sync {
      TransmitAges(q, now, k, k');
    } else if frame != [] && Decode(frame) == Response {
      ResponseForOtherAges(q, frame, k, k');
    } else {
      SameSlot(q, k', k);
    }
  }

  lemma {:induction false} RunAges(s: State, steps: seq<Step>, d: Data, k: nat) returns (k': nat)
    requires Inv(s) && k < |s.queue| && SameKey(s.queue[k], d) && s.queue[k].id == d.id && Stale(s.queue[k])
    requires NoNews(s, steps, d)
    ensures k' < |Run(s, steps).queue|
    ensures var e := Run(s, steps).queue[k'];
      && Later(e, s.queue[k]) && e.transmissions <= s.queue[k].transmissions + Syncs(steps)
      && Score(s.queue[k], k) + Handled(s, steps, d) <= Score(e, k')
    decreases steps
  {
    assert Sound(s.queue[k]);
    if steps == [] {
      k' := k;
    } else {
      SameSlot(s.queue, FindKey(s.queue, d), k);
      var s1 := Next(s, steps[0]);
      assert HasKey(s1.queue, d);
      var k1 :| 0 <= k1 < |s1.queue| && SameKey(s1.queue[k1], d);
      NextKeepsInv(s, steps[0]);
      StepAges(s, steps[0], k, k1);
      k' := RunAges(s1, steps[1..], d, k1);
    }
  }

  /** Over any stretch of any run in which a request with a wrong response stays, is not replaced and
      gets no new response: the wrong response stays stored, and each pass that finds it spends a
      resend or, once they are used up, moves the request to slot 0. So at most four passes find it,
      and it is not sent more often than sync frames come. */
  lemma StaleResponseSpendsResends(lastId: byte, before: seq<Step>, steps: seq<Step>, k: nat)
    requires var s := Run(Init(lastId), before);
      k < |s.queue| && Stale(s.queue[k]) && NoNews(s, steps, s.queue[k])
    ensures var s := Run(Init(lastId), before);
      var d, q := s.queue[k], Run(s, steps).queue;
      exists k' :: 0 <= k' < |q| && Later(q[k'], d)
        && d.resendCount + Handled(s, steps, d) <= q[k'].resendCount + (if k > 0 && k' == 0 then 1 else 0) <= 4
        && q[k'].transmissions <= d.transmissions + Syncs(steps)
  {
    RunKeepsInv(Init(lastId), before);
    var s := Run(Init(lastId), before);
    var k' := RunAges(s, steps, s.queue[k], k);
    assert Later(Run(s, steps).queue[k'], s.queue[k]);
  }
}
